/** Nodes: reading the `nodes` lists into the node store, the post-pass that
    fills adjacency and normalises scopes, and selection by tag
    (src/hiearch/hh_node.py). */
module Node {
  import opened Values
  import opened Util
  import opened Store

  // ---------------------------------------------------------------------
  // parse

  /** The record every node without a style is merged over. */
  const DefaultNode: Record := map[
    "id" := StrList(["", ""]),
    "scope" := Null,
    "style" := Null,
    "style_notag" := Null,
    "graphviz" := Dict(map[]),
    "tags" := StrList(["default"]),
    "substitutions" := Dict(map[]),
    "label" := Str(""),
    "in" := StrList([]),
    "out" := StrList([]),
    "child_in" := StrList([]),
    "child_out" := StrList([])
  ]

  /** Python can put a string or a list's elements into a set, but not a set
      or a dictionary. */
  predicate Hashable(v: Value)
  {
    !v.StrSet? && !v.Dict?
  }

  /** gather: whether the property is set (present and not None), and the
      references it adds to the must-exist set.  A list adds nothing, since
      the source binds the union to its local name only. */
  function Gather(prop: string, node: Record): (r: Result<(set<Value>, bool)>)
    ensures r.Err? <==> prop in node && !node[prop].Null? && !node[prop].StrList? && !Hashable(node[prop])
    ensures r.Ok? ==> (r.value.1 <==> prop in node && !node[prop].Null?)
    ensures r.Ok? && r.value.1 && node[prop].StrList? ==> r.value.0 == {}
    ensures r.Ok? && r.value.1 && !node[prop].StrList? ==> r.value.0 == {node[prop]}
    ensures r.Ok? && !r.value.1 ==> r.value.0 == {}
  {
    if prop in node && !node[prop].Null? then
      if node[prop].StrList? then Ok(({}, true))
      else if Hashable(node[prop]) then Ok(({node[prop]}, true))
      else Err(Malformed("unhashable reference"))
    else Ok(({}, false))
  }

  /** A node after its `[label, id]` pair is split. */
  datatype NodeId = NodeId(key: string, record: Record)

  /** `node['label'] = node['id'][0]`, `node['id'] = node['id'][1]`. */
  function ReadNodeId(n: Record): (r: Result<NodeId>)
    ensures r.Err? ==> r.error.Malformed?
    ensures r.Ok? <==> "id" in n && Positional(n["id"]).Some? && |Positional(n["id"]).value| >= 2
    ensures r.Ok? ==>
      r.value.key == Positional(n["id"]).value[1] &&
      r.value.record == n["label" := Str(Positional(n["id"]).value[0])]["id" := Str(r.value.key)]
  {
    if "id" !in n || Positional(n["id"]).None? || |Positional(n["id"]).value| < 2 then Err(Malformed("node id"))
    else
      var pair := Positional(n["id"]).value;
      Ok(NodeId(pair[1], n["label" := Str(pair[0])]["id" := Str(pair[1])]))
  }

  /** The three stores the node parser writes. */
  datatype NodeState = NodeState(entities: map<string, Record>, mustExist: set<Value>, styled: seq<Record>)

  /** One iteration of the parse loop. */
  function AddNode(st: NodeState, n: Record): Result<NodeState>
  {
    var id :- ReadNodeId(n);
    if id.key in st.entities then Err(DuplicateId("node", id.key))
    else
      var scope :- Gather("scope", id.record);
      var style :- Gather("style", id.record);
      var notag :- Gather("style_notag", id.record);
      var refs := st.mustExist + scope.0 + style.0 + notag.0;
      if style.1 && notag.1 then Err(BothStyles(id.key))
      else if style.1 || notag.1 then
        Ok(NodeState(st.entities[id.key := id.record], refs, st.styled + [id.record]))
      else
        var merged :- MergeStyles(DefaultNode, id.record, true);
        Ok(NodeState(st.entities[id.key := merged], refs, st.styled))
  }

  /** A style reference is set when it is present and not null. */
  predicate IsSet(n: Record, prop: string)
  {
    prop in n && !n[prop].Null?
  }

  /** The checks of the parse loop: an id already stored is a duplicate; a
      node setting both `style` and `style_notag` is refused; a node is
      queued for styling exactly when one of the two is set, and is then
      stored raw, otherwise merged over the default record. */
  lemma AddNodeSpec(st: NodeState, n: Record)
    requires ReadNodeId(n).Ok?
    ensures var id := ReadNodeId(n).value;
      (id.key in st.entities ==> AddNode(st, n) == Err(DuplicateId("node", id.key))) &&
      (AddNode(st, n).Err? && AddNode(st, n).error.BothStyles? ==>
        IsSet(id.record, "style") && IsSet(id.record, "style_notag")) &&
      (id.key !in st.entities && IsSet(id.record, "style") && IsSet(id.record, "style_notag") &&
       (forall p :: p in id.record && p in {"scope", "style", "style_notag"} ==> Hashable(id.record[p]) || id.record[p].StrList?) ==>
        AddNode(st, n) == Err(BothStyles(id.key))) &&
      (AddNode(st, n).Ok? ==>
        var st' := AddNode(st, n).value;
        id.key !in st.entities && id.key in st'.entities &&
        (forall k :: k in st.entities ==> k in st'.entities && st'.entities[k] == st.entities[k]) &&
        st'.entities.Keys == st.entities.Keys + {id.key} &&
        st.mustExist <= st'.mustExist &&
        ((IsSet(id.record, "style") || IsSet(id.record, "style_notag")) ==>
          st'.entities[id.key] == id.record && st'.styled == st.styled + [id.record]) &&
        (!IsSet(id.record, "style") && !IsSet(id.record, "style_notag") ==>
          Ok(st'.entities[id.key]) == MergeStyles(DefaultNode, id.record, true) && st'.styled == st.styled))
  {
  }

  /** The parse loop over a list of nodes; the first error ends it. */
  function AddNodes(st: NodeState, yaml: seq<Record>): Result<NodeState>
  {
    if |yaml| == 0 then Ok(st)
    else
      var before :- AddNodes(st, yaml[..|yaml| - 1]);
      AddNode(before, yaml[|yaml| - 1])
  }

  lemma {:induction false} AddNodesErrorStops(st: NodeState, yaml: seq<Record>, n: nat)
    requires n <= |yaml| && AddNodes(st, yaml[..n]).Err?
    ensures AddNodes(st, yaml) == AddNodes(st, yaml[..n])
    decreases |yaml| - n
  {
    if n < |yaml| {
      assert yaml[..n + 1][..n] == yaml[..n];
      AddNodesErrorStops(st, yaml, n + 1);
    } else {
      assert yaml[..n] == yaml;
    }
  }

  /** parse(yaml_nodes, nodes). */
  method Parse(yamlNodes: seq<Record>, nodes: ParsedEntities) returns (r: Outcome)
    modifies nodes
    ensures var expected := AddNodes(NodeState(old(nodes.entities), old(nodes.mustExist), old(nodes.styled)), yamlNodes);
      (r.Pass? <==> expected.Ok?) &&
      (r.Pass? ==> expected.value == NodeState(nodes.entities, nodes.mustExist, nodes.styled)) &&
      (r.Fail? ==> expected == Err(r.error))
  {
    ghost var st0 := NodeState(nodes.entities, nodes.mustExist, nodes.styled);
    var i := 0;
    assert yamlNodes[..0] == [];
    while i < |yamlNodes|
      invariant 0 <= i <= |yamlNodes|
      invariant AddNodes(st0, yamlNodes[..i]) == Ok(NodeState(nodes.entities, nodes.mustExist, nodes.styled))
    {
      assert yamlNodes[..i + 1][..i] == yamlNodes[..i];
      var id := ReadNodeId(yamlNodes[i]);
      if id.Err? {
        AddNodesErrorStops(st0, yamlNodes, i + 1);
        return Fail(id.error);
      }
      var key, node := id.value.key, id.value.record;
      if key in nodes.entities {
        AddNodesErrorStops(st0, yamlNodes, i + 1);
        return Fail(DuplicateId("node", key));
      }
      var scope := Gather("scope", node);
      if scope.Err? {
        AddNodesErrorStops(st0, yamlNodes, i + 1);
        return Fail(scope.error);
      }
      nodes.mustExist := nodes.mustExist + scope.value.0;
      var style := Gather("style", node);
      if style.Err? {
        AddNodesErrorStops(st0, yamlNodes, i + 1);
        return Fail(style.error);
      }
      nodes.mustExist := nodes.mustExist + style.value.0;
      var notag := Gather("style_notag", node);
      if notag.Err? {
        AddNodesErrorStops(st0, yamlNodes, i + 1);
        return Fail(notag.error);
      }
      nodes.mustExist := nodes.mustExist + notag.value.0;
      if style.value.1 && notag.value.1 {
        AddNodesErrorStops(st0, yamlNodes, i + 1);
        return Fail(BothStyles(key));
      }
      if style.value.1 || notag.value.1 {
        nodes.styled := nodes.styled + [node];
        nodes.entities := nodes.entities[key := node];
      } else {
        var merged := MergeStyles(DefaultNode, node, true);
        if merged.Err? {
          AddNodesErrorStops(st0, yamlNodes, i + 1);
          return Fail(merged.error);
        }
        nodes.entities := nodes.entities[key := merged.value];
      }
      i := i + 1;
    }
    assert yamlNodes[..i] == yamlNodes;
    return Pass;
  }

  lemma AddNodeResolvable(st: NodeState, n: Record, st': NodeState)
    requires Resolvable(st.entities, st.styled)
    requires AddNode(st, n) == Ok(st')
    ensures Resolvable(st'.entities, st'.styled)
  {
    var id := ReadNodeId(n).value;
    var style := Gather("style", id.record).value;
    var notag := Gather("style_notag", id.record).value;
    if style.1 || notag.1 {
      AddKeepsResolvable(st.entities, st.styled, id.record, true);
    } else {
      var merged := MergeStyles(DefaultNode, id.record, true).value;
      MergeKeepsId(DefaultNode, id.record, true, merged);
      AddKeepsResolvable(st.entities, st.styled, merged, false);
    }
  }

  /** Parsing keeps the node store in the shape apply_styles needs. */
  lemma {:induction false} AddNodesResolvable(st: NodeState, yaml: seq<Record>)
    requires Resolvable(st.entities, st.styled)
    ensures AddNodes(st, yaml).Ok? ==> Resolvable(AddNodes(st, yaml).value.entities, AddNodes(st, yaml).value.styled)
  {
    if |yaml| > 0 {
      var init := yaml[..|yaml| - 1];
      AddNodesResolvable(st, init);
      if AddNodes(st, yaml).Ok? {
        AddNodeResolvable(AddNodes(st, init).value, yaml[|yaml| - 1], AddNodes(st, yaml).value);
      }
    }
  }

  /** A successful parse adds one fresh entry per node and keeps every
      existing one. */
  lemma {:induction false} AddNodesEntities(st: NodeState, yaml: seq<Record>)
    requires AddNodes(st, yaml).Ok?
    ensures var st' := AddNodes(st, yaml).value;
      |st'.entities| == |st.entities| + |yaml| &&
      (forall k :: k in st.entities ==> k in st'.entities && st'.entities[k] == st.entities[k]) &&
      st.mustExist <= st'.mustExist
  {
    if |yaml| > 0 {
      var init := yaml[..|yaml| - 1];
      AddNodesEntities(st, init);
      var before := AddNodes(st, init).value;
      AddNodeSpec(before, yaml[|yaml| - 1]);
    }
  }

  // ---------------------------------------------------------------------
  // postprocess

  const NoEdges: Value := StrSet({})

  /** The first loop of postprocess on one node: the four adjacency sets
      start empty and the scope is normalised. */
  function ResetNode(n: Record): (r: Result<Record>)
    ensures r.Err? ==> r.error.Malformed? || r.error.DuplicateScope?
  {
    if "scope" !in n then Err(Malformed("node scope"))
    else
      var base := n["out" := NoEdges]["in" := NoEdges]["child_out" := NoEdges]["child_in" := NoEdges];
      match n["scope"]
      case Null => Ok(base)
      case StrList(xs) =>
        if |set x | x in xs| != |xs| then
          if "label" in n && n["label"].Str? then Err(DuplicateScope(n["label"].s))
          else Err(Malformed("node label"))
        else Ok(base["scope" := StrSet(set x | x in xs)])
      case Str(s) => Ok(base["scope" := StrSet({s})])
      case _ => Err(Malformed("unhashable scope"))
  }

  /** Scope normalisation: a list becomes the set of its elements and is
      refused when it repeats one, a single id becomes a singleton, and a
      null scope stays null; the adjacency sets are empty and every other
      key is kept. */
  lemma ResetNodeSpec(n: Record)
    requires "scope" in n && "label" in n && n["label"].Str?
    ensures var r := ResetNode(n);
      (r.Err? && r.error.DuplicateScope? <==> n["scope"].StrList? && HasDuplicates(n["scope"].items)) &&
      (r.Ok? <==> n["scope"].Null? || n["scope"].Str? || (n["scope"].StrList? && !HasDuplicates(n["scope"].items))) &&
      (r.Ok? ==>
        r.value.Keys == n.Keys + {"out", "in", "child_out", "child_in"} &&
        r.value["out"] == NoEdges && r.value["in"] == NoEdges &&
        r.value["child_out"] == NoEdges && r.value["child_in"] == NoEdges &&
        (forall k :: k in n && k !in {"out", "in", "child_out", "child_in", "scope"} ==> r.value[k] == n[k]) &&
        (n["scope"].Null? ==> r.value["scope"] == Null) &&
        (n["scope"].Str? ==> r.value["scope"] == StrSet({n["scope"].s})) &&
        (n["scope"].StrList? ==> (r.value["scope"].StrSet? &&
          forall x :: x in r.value["scope"].elems <==> x in n["scope"].items)))
  {
    if n["scope"].StrList? {
      DuplicatesIffSmallerSet(n["scope"].items);
    }
  }

  lemma ResetClears(resolved: map<string, Record>, reset: map<string, Record>)
    requires reset.Keys == resolved.Keys
    requires forall k :: k in resolved ==> ResetNode(resolved[k]) == Ok(reset[k])
    ensures forall k :: k in reset ==> "out" in reset[k] && reset[k]["out"] == NoEdges && "in" in reset[k] && reset[k]["in"] == NoEdges
  {
    forall k | k in reset
      ensures "out" in reset[k] && reset[k]["out"] == NoEdges && "in" in reset[k] && reset[k]["in"] == NoEdges
    {
      assert ResetNode(resolved[k]) == Ok(reset[k]);
    }
  }

  /** The edges of `edges` among `done` whose `dir` endpoint is `k`. */
  ghost function IncidentIn(edges: map<string, Record>, done: set<string>, dir: string, k: string): set<string>
  {
    set e | e in done && e in edges && dir in edges[e] && edges[e][dir] == Str(k)
  }

  /** A node record with the given adjacency sets. */
  function WithAdjacency(n: Record, outs: set<string>, ins: set<string>): Record
  {
    n["out" := StrSet(outs)]["in" := StrSet(ins)]
  }

  /** The adjacency sets hold exactly the edges of `done`: `out` those the
      node is the tail of, `in` those it is the head of. */
  ghost predicate Linked(ents: map<string, Record>, edges: map<string, Record>, done: set<string>,
                         cur: map<string, Record>)
  {
    cur.Keys == ents.Keys &&
    forall k :: k in ents ==>
      cur[k] == WithAdjacency(ents[k], IncidentIn(edges, done, "out", k), IncidentIn(edges, done, "in", k))
  }

  /** Both endpoints of an edge name a node. */
  predicate Attached(e: Record, ents: map<string, Record>)
  {
    "in" in e && e["in"].Str? && e["in"].s in ents && "out" in e && e["out"].Str? && e["out"].s in ents
  }

  /** Every record has its two adjacency sets. */
  predicate HasAdjacency(cur: map<string, Record>)
  {
    forall k :: k in cur ==> "in" in cur[k] && cur[k]["in"].StrSet? && "out" in cur[k] && cur[k]["out"].StrSet?
  }

  /** `nodes.entities[edge[dir]][dir].add(key)`. */
  function AddTo(cur: map<string, Record>, node: string, dir: string, key: string): (r: map<string, Record>)
    requires node in cur && dir in cur[node] && cur[node][dir].StrSet?
    ensures r.Keys == cur.Keys
  {
    cur[node := cur[node][dir := StrSet(cur[node][dir].elems + {key})]]
  }

  /** Adding one edge to its head's `in` set, then its tail's `out` set. */
  function Attach(cur: map<string, Record>, key: string, e: Record): (r: map<string, Record>)
    requires Attached(e, cur) && HasAdjacency(cur)
    ensures r.Keys == cur.Keys
  {
    var cur' := AddTo(cur, e["in"].s, "in", key);
    AddTo(cur', e["out"].s, "out", key)
  }

  lemma IncidentStep(edges: map<string, Record>, done: set<string>, key: string, dir: string, k: string)
    requires key in edges && dir in edges[key]
    ensures IncidentIn(edges, done + {key}, dir, k) ==
      IncidentIn(edges, done, dir, k) + (if edges[key][dir] == Str(k) then {key} else {})
  {
  }

  lemma AdjacencyUpdate(n: Record, outs: set<string>, ins: set<string>, outs': set<string>, ins': set<string>)
    ensures WithAdjacency(n, outs, ins)["in" := StrSet(ins')] == WithAdjacency(n, outs, ins')
    ensures WithAdjacency(n, outs, ins)["out" := StrSet(outs')] == WithAdjacency(n, outs', ins)
  {
    assert WithAdjacency(n, outs, ins)["out" := StrSet(outs')] == WithAdjacency(n, outs', ins) by {
      var a := WithAdjacency(n, outs, ins)["out" := StrSet(outs')];
      var b := WithAdjacency(n, outs', ins);
      assert a.Keys == b.Keys;
      forall j | j in a ensures a[j] == b[j] {
      }
    }
  }

  lemma AttachAt(ents: map<string, Record>, edges: map<string, Record>, done: set<string>,
                 cur: map<string, Record>, key: string, k: string)
    requires Linked(ents, edges, done, cur) && key in edges && Attached(edges[key], cur) && HasAdjacency(cur)
    requires k in ents
    ensures Attach(cur, key, edges[key])[k] ==
      WithAdjacency(ents[k], IncidentIn(edges, done + {key}, "out", k), IncidentIn(edges, done + {key}, "in", k))
  {
    IncidentStep(edges, done, key, "out", k);
    IncidentStep(edges, done, key, "in", k);
    var outs, ins := IncidentIn(edges, done, "out", k), IncidentIn(edges, done, "in", k);
    var head, tail := edges[key]["in"].s, edges[key]["out"].s;
    var cur1 := AddTo(cur, head, "in", key);
    if k == head {
      AdjacencyUpdate(ents[k], outs, ins, outs + {key}, ins + {key});
      AdjacencyUpdate(ents[k], outs, ins + {key}, outs + {key}, ins + {key});
      assert cur[k] == WithAdjacency(ents[k], outs, ins);
      assert cur1[k] == WithAdjacency(ents[k], outs, ins + {key});
    } else {
      assert cur1[k] == cur[k];
      if k == tail {
        AdjacencyUpdate(ents[k], outs, ins, outs + {key}, ins);
        assert cur[k] == WithAdjacency(ents[k], outs, ins);
        assert edges[key]["in"] != Str(k);
        assert IncidentIn(edges, done + {key}, "in", k) == ins;
        assert AddTo(cur1, tail, "out", key)[k] == WithAdjacency(ents[k], outs + {key}, ins);
      } else {
        assert AddTo(cur1, tail, "out", key)[k] == cur[k];
        assert cur[k] == WithAdjacency(ents[k], outs, ins);
        assert edges[key]["out"] != Str(k) && edges[key]["in"] != Str(k);
        assert IncidentIn(edges, done + {key}, "out", k) == outs;
        assert IncidentIn(edges, done + {key}, "in", k) == ins;
        assert Attach(cur, key, edges[key])[k] == cur[k];
      }
    }
  }

  lemma AttachStep(ents: map<string, Record>, edges: map<string, Record>, done: set<string>,
                   cur: map<string, Record>, key: string)
    requires Linked(ents, edges, done, cur) && key in edges && Attached(edges[key], cur) && HasAdjacency(cur)
    ensures Linked(ents, edges, done + {key}, Attach(cur, key, edges[key]))
  {
    forall k | k in ents
      ensures Attach(cur, key, edges[key])[k] ==
        WithAdjacency(ents[k], IncidentIn(edges, done + {key}, "out", k), IncidentIn(edges, done + {key}, "in", k))
    {
      AttachAt(ents, edges, done, cur, key, k);
    }
  }

  lemma LinkedShape(ents: map<string, Record>, edges: map<string, Record>, done: set<string>, cur: map<string, Record>)
    requires Linked(ents, edges, done, cur)
    ensures HasAdjacency(cur)
  {
  }

  lemma InitiallyLinked(ents: map<string, Record>, edges: map<string, Record>)
    requires forall k :: k in ents ==> "out" in ents[k] && ents[k]["out"] == NoEdges && "in" in ents[k] && ents[k]["in"] == NoEdges
    ensures Linked(ents, edges, {}, ents)
  {
    forall k | k in ents
      ensures ents[k] == WithAdjacency(ents[k], IncidentIn(edges, {}, "out", k), IncidentIn(edges, {}, "in", k))
    {
      assert IncidentIn(edges, {}, "out", k) == {};
      assert IncidentIn(edges, {}, "in", k) == {};
      var w := WithAdjacency(ents[k], {}, {});
      assert w.Keys == ents[k].Keys;
      forall j | j in w ensures w[j] == ents[k][j] {
      }
    }
  }

  /** The invariant of the adjacency loop, with the edges in `rest` still to do. */
  ghost predicate Connecting(ents: map<string, Record>, edges: map<string, Record>, rest: set<string>,
                             cur: map<string, Record>)
  {
    rest <= edges.Keys && cur.Keys == ents.Keys &&
    Linked(ents, edges, edges.Keys - rest, cur) &&
    forall e :: e in edges && e !in rest ==> Attached(edges[e], ents)
  }

  /** Attaching one more edge keeps the invariant of the adjacency loop. */
  lemma ConnectStep(ents: map<string, Record>, edges: map<string, Record>, rest: set<string>,
                    cur: map<string, Record>, key: string)
    requires Connecting(ents, edges, rest, cur) && key in rest && Attached(edges[key], cur)
    ensures HasAdjacency(cur) && Connecting(ents, edges, rest - {key}, Attach(cur, key, edges[key]))
  {
    LinkedShape(ents, edges, edges.Keys - rest, cur);
    AttachStep(ents, edges, edges.Keys - rest, cur, key);
    assert edges.Keys - rest + {key} == edges.Keys - (rest - {key});
  }

  /** The second loop of postprocess: every edge is added to the `in` set of
      its head and the `out` set of its tail. */
  method Connect(ents: map<string, Record>, edges: map<string, Record>) returns (r: Result<map<string, Record>>)
    requires forall k :: k in ents ==> "out" in ents[k] && ents[k]["out"] == NoEdges && "in" in ents[k] && ents[k]["in"] == NoEdges
    ensures r.Ok? <==> forall e :: e in edges ==> Attached(edges[e], ents)
    ensures r.Ok? ==> Linked(ents, edges, edges.Keys, r.value)
    ensures r.Err? ==> r.error.Malformed?
  {
    var cur := ents;
    var rest := edges.Keys;
    InitiallyLinked(ents, edges);
    assert edges.Keys - rest == {};
    while rest != {}
      invariant Connecting(ents, edges, rest, cur)
      decreases rest
    {
      var key :| key in rest;
      if !Attached(edges[key], cur) {
        return Err(Malformed("edge endpoint"));
      }
      ConnectStep(ents, edges, rest, cur, key);
      cur, rest := Attach(cur, key, edges[key]), rest - {key};
    }
    assert edges.Keys - rest == edges.Keys;
    return Ok(cur);
  }

  /** After the adjacency loop an edge is in a node's `out` set exactly when
      the node is its tail, and in its `in` set exactly when it is its head. */
  lemma LinkedIsExact(ents: map<string, Record>, edges: map<string, Record>, cur: map<string, Record>,
                      k: string, e: string)
    requires Linked(ents, edges, edges.Keys, cur) && k in cur
    ensures cur[k]["out"].StrSet? && cur[k]["in"].StrSet?
    ensures e in cur[k]["out"].elems <==> e in edges && "out" in edges[e] && edges[e]["out"] == Str(k)
    ensures e in cur[k]["in"].elems <==> e in edges && "in" in edges[e] && edges[e]["in"] == Str(k)
  {
  }

  /** The work of postprocess on the store's values. */
  method Resolve(mustExist: set<Value>, entities: map<string, Record>, styled: seq<Record>,
                 edges: map<string, Record>)
    returns (pending: seq<Record>, r: Result<map<string, Record>>, ghost resolved: map<string, Record>,
             ghost reset: map<string, Record>)
    requires Resolvable(entities, styled)
    ensures r.Ok? ==> forall k :: k in mustExist ==> Present(k, entities)
    ensures r.Ok? ==>
      multiset(pending) == multiset(styled) &&
      StylesApplied(styled, entities, resolved) &&
      reset.Keys == resolved.Keys &&
      (forall k :: k in resolved ==> ResetNode(resolved[k]) == Ok(reset[k])) &&
      Linked(reset, edges, edges.Keys, r.value)
    ensures r.Err? ==> r.error.MissingId? || r.error.StyleCycle? || r.error.Malformed? || r.error.DuplicateScope?
  {
    pending, resolved, reset := styled, entities, entities;
    var check := CheckKeyExistence(mustExist, entities, "node");
    if check.Fail? {
      return pending, Err(check.error), resolved, reset;
    }
    var applied;
    pending, applied := ApplyStyles(styled, entities);
    if applied.Err? {
      return pending, Err(applied.error), resolved, reset;
    }
    resolved := applied.value;
    var normalized := MapEntries(applied.value, ResetNode);
    if normalized.Err? {
      return pending, Err(normalized.error), resolved, reset;
    }
    reset := normalized.value;
    ResetClears(applied.value, normalized.value);
    r := Connect(normalized.value, edges);
  }

  /** postprocess(nodes, edges), writing the results back into the store. */
  method Postprocess(nodes: ParsedEntities, edges: map<string, Record>)
    returns (r: Outcome, ghost resolved: map<string, Record>, ghost reset: map<string, Record>)
    requires Resolvable(nodes.entities, nodes.styled)
    modifies nodes
    ensures nodes.mustExist == old(nodes.mustExist)
    ensures r.Pass? ==> forall k :: k in old(nodes.mustExist) ==> Present(k, old(nodes.entities))
    ensures r.Pass? ==>
      multiset(nodes.styled) == multiset(old(nodes.styled)) &&
      StylesApplied(old(nodes.styled), old(nodes.entities), resolved) &&
      reset.Keys == resolved.Keys &&
      (forall k :: k in resolved ==> ResetNode(resolved[k]) == Ok(reset[k])) &&
      Linked(reset, edges, edges.Keys, nodes.entities)
    ensures r.Fail? ==> r.error.MissingId? || r.error.StyleCycle? || r.error.Malformed? || r.error.DuplicateScope?
  {
    var pending, result;
    pending, result, resolved, reset := Resolve(nodes.mustExist, nodes.entities, nodes.styled, edges);
    nodes.styled := pending;
    if result.Err? {
      return Fail(result.error), resolved, reset;
    }
    nodes.entities := result.value;
    r := Pass;
  }

  // ---------------------------------------------------------------------
  // get_nodes_by_tag

  function Window(b: string, i: int, n: nat): string
    requires 0 <= i && i + n <= |b|
  {
    b[i..i + n]
  }

  /** Python's `a in b` for strings: `a` is a substring of `b`. */
  predicate IsSubstring(a: string, b: string)
  {
    exists i :: 0 <= i <= |b| - |a| && Window(b, i, |a|) == a
  }

  /** Python's `tag in tags` on whatever `tags` holds; None has no members. */
  function TagIn(tag: string, tags: Value): (r: Result<bool>)
    ensures r.Err? <==> tags.Null?
    ensures tags.StrList? ==> r == Ok(tag in tags.items)
  {
    match tags
    case Null => Err(Malformed("tags"))
    case Str(s) => Ok(IsSubstring(tag, s))
    case StrList(items) => Ok(tag in items)
    case StrSet(elems) => Ok(tag in elems)
    case Dict(entries) => Ok(tag in entries)
  }

  predicate Tagged(node: Record, tag: string)
  {
    "tags" in node && TagIn(tag, node["tags"]) == Ok(true)
  }

  /** A node the filter can read: it has tags, and an id when it is selected. */
  predicate Readable(node: Record, tag: string)
  {
    "tags" in node && TagIn(tag, node["tags"]).Ok? && (Tagged(node, tag) ==> HasStrId(node))
  }

  /** get_nodes_by_tag: the ids of the nodes whose tags contain `tag`. */
  method GetNodesByTag(nodes: map<string, Record>, tag: string) returns (r: Result<set<string>>)
    ensures r.Ok? <==> forall k :: k in nodes ==> Readable(nodes[k], tag)
    ensures r.Ok? ==> forall x :: x in r.value <==>
      exists k :: k in nodes && Tagged(nodes[k], tag) && HasStrId(nodes[k]) && IdOf(nodes[k]) == x
    ensures r.Err? ==> r.error.Malformed?
  {
    var rest := nodes.Keys;
    var selection: set<string> := {};
    while rest != {}
      invariant rest <= nodes.Keys
      invariant forall k :: k in nodes && k !in rest ==> Readable(nodes[k], tag)
      invariant forall x :: x in selection <==>
        exists k :: k in nodes && k !in rest && Tagged(nodes[k], tag) && HasStrId(nodes[k]) && IdOf(nodes[k]) == x
      decreases rest
    {
      var k :| k in rest;
      var node := nodes[k];
      if "tags" !in node {
        return Err(Malformed("tags"));
      }
      var found := TagIn(tag, node["tags"]);
      if found.Err? {
        return Err(found.error);
      }
      if found.value {
        if !HasStrId(node) {
          return Err(Malformed("node id"));
        }
        selection := selection + {IdOf(node)};
      }
      rest := rest - {k};
    }
    return Ok(selection);
  }

  /** Over a store whose nodes sit under their ids, the selection is exactly
      the keys of the tagged nodes. */
  lemma TagSelectionIsKeys(nodes: map<string, Record>, tag: string, selection: set<string>)
    requires Keyed(nodes)
    requires forall x :: x in selection <==> exists k :: k in nodes && Tagged(nodes[k], tag) && HasStrId(nodes[k]) && IdOf(nodes[k]) == x
    ensures selection == set k | k in nodes && Tagged(nodes[k], tag)
  {
  }
}
