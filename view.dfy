/** Views: reading the `views` lists into the view store, neighbour selection
    for one view, and the post-pass that resolves the node set of every view,
    falls back to a default view and generates expanded views
    (src/hiearch/hh_view.py). */
module View {
  import opened Values
  import opened Util
  import opened Store
  import Node
  import Edge
  import Tree
  import opened Select
  import Recursive

  // ---------------------------------------------------------------------
  // parse

  /** The module's `default` record: the one every view without a style is
      merged over, and the view added when every view comes out empty. */
  const DefaultView: Record := map[
    "id" := Str("default"),
    "nodes" := Null,
    "neighbours" := Str("explicit"),
    "graphviz" := Dict(map[]),
    "style" := Null,
    "tags" := StrList([]),
    "edges" := StrList([]),
    "custom_edges" := StrList([]),
    "tree" := Dict(map[]),
    "expand" := StrList([]),
    "nodes_subset" := Dict(map[]),
    "expanded_from" := Dict(map[])
  ]

  /** Python's `for x in v`, collected into a set: the elements of a list or
      a set, the characters of a string, the keys of a dictionary.  None
      cannot be iterated. */
  function Members(v: Value): (r: Result<set<string>>)
    ensures r.Err? <==> v.Null?
    ensures v.StrList? ==> r == Ok(Elems(v.items))
  {
    match v
    case Null => Err(Malformed("None is not iterable"))
    case Str(s) => Ok(set i | 0 <= i < |s| :: [s[i]])
    case StrList(items) => Ok(set x | x in items)
    case StrSet(elems) => Ok(elems)
    case Dict(entries) => Ok(entries.Keys)
  }

  /** Python can put None or a string into a set, but no container. */
  predicate Hashable(v: Value)
  {
    v.Null? || v.Str?
  }

  /** The three stores the view parser writes: the view map, the style
      references, the views awaiting their style, and the node references
      the views make. */
  datatype ViewState = ViewState(entities: map<string, Record>, mustExist: set<Value>,
                                 styled: seq<Record>, nodeRefs: set<Value>)

  /** How one view is stored: raw and queued for styling when it names a
      style, merged over the default record when it does not. */
  function StoreView(st: ViewState, key: string, v: Record): Result<ViewState>
  {
    if "style" in v then
      if Hashable(v["style"]) then
        Ok(ViewState(st.entities[key := v], st.mustExist + {v["style"]}, st.styled + [v], st.nodeRefs))
      else Err(Malformed("unhashable style"))
    else
      var merged :- MergeStyles(DefaultView, v, true);
      Ok(st.(entities := st.entities[key := merged]))
  }

  /** One iteration of the parse loop. */
  function AddView(st: ViewState, v: Record): Result<ViewState>
  {
    if "id" !in v || !v["id"].Str? then Err(Malformed("view id"))
    else if v["id"].s in st.entities then Err(DuplicateId("view", v["id"].s))
    else
      var key := v["id"].s;
      var stored :- StoreView(st, key, v);
      if "nodes" in v then
        var names :- Members(v["nodes"]);
        Ok(stored.(nodeRefs := stored.nodeRefs + set n | n in names :: Str(n)))
      else Ok(stored)
  }

  /** The checks of the parse loop: an id already stored is a duplicate and
      changes nothing; otherwise the view is stored under its id, raw and
      queued for styling when it names a style, merged over the default
      record when it does not, and every node it names becomes a node
      reference. */
  lemma AddViewSpec(st: ViewState, v: Record)
    requires "id" in v && v["id"].Str?
    ensures var key := v["id"].s;
      (key in st.entities <==> AddView(st, v) == Err(DuplicateId("view", key))) &&
      (AddView(st, v).Ok? ==>
        var st' := AddView(st, v).value;
        st'.entities.Keys == st.entities.Keys + {key} &&
        (forall k :: k in st.entities ==> st'.entities[k] == st.entities[k]) &&
        ("style" in v ==>
          st'.entities[key] == v && st'.styled == st.styled + [v] && st'.mustExist == st.mustExist + {v["style"]}) &&
        ("style" !in v ==>
          Ok(st'.entities[key]) == MergeStyles(DefaultView, v, true) &&
          st'.styled == st.styled && st'.mustExist == st.mustExist) &&
        ("nodes" in v ==> st'.nodeRefs == st.nodeRefs + set n | n in Members(v["nodes"]).value :: Str(n)) &&
        ("nodes" !in v ==> st'.nodeRefs == st.nodeRefs))
  {
  }

  /** The parse loop over a list of views; the first error ends it. */
  function AddViews(st: ViewState, yaml: seq<Record>): Result<ViewState>
  {
    if |yaml| == 0 then Ok(st)
    else
      var before :- AddViews(st, yaml[..|yaml| - 1]);
      AddView(before, yaml[|yaml| - 1])
  }

  /** Once an error occurs the rest of the list is not looked at. */
  lemma {:induction false} AddViewsErrorStops(st: ViewState, yaml: seq<Record>, n: nat)
    requires n <= |yaml| && AddViews(st, yaml[..n]).Err?
    ensures AddViews(st, yaml) == AddViews(st, yaml[..n])
    decreases |yaml| - n
  {
    if n < |yaml| {
      assert yaml[..n + 1][..n] == yaml[..n];
      AddViewsErrorStops(st, yaml, n + 1);
    } else {
      assert yaml[..n] == yaml;
    }
  }

  /** parse(yaml_views, views, must_exist_nodes). */
  method Parse(yamlViews: seq<Record>, views: ParsedEntities, nodes: ParsedEntities) returns (r: Outcome)
    requires views != nodes
    modifies views, nodes`mustExist
    ensures var expected := AddViews(ViewState(old(views.entities), old(views.mustExist),
                                               old(views.styled), old(nodes.mustExist)), yamlViews);
      (r.Pass? <==> expected.Ok?) &&
      (r.Pass? ==> expected.value == ViewState(views.entities, views.mustExist, views.styled, nodes.mustExist)) &&
      (r.Fail? ==> expected == Err(r.error))
  {
    ghost var st0 := ViewState(views.entities, views.mustExist, views.styled, nodes.mustExist);
    var i := 0;
    assert yamlViews[..0] == [];
    while i < |yamlViews|
      invariant 0 <= i <= |yamlViews|
      invariant AddViews(st0, yamlViews[..i]) == Ok(ViewState(views.entities, views.mustExist, views.styled, nodes.mustExist))
    {
      assert yamlViews[..i + 1][..i] == yamlViews[..i];
      var view := yamlViews[i];
      if "id" !in view || !view["id"].Str? {
        AddViewsErrorStops(st0, yamlViews, i + 1);
        return Fail(Malformed("view id"));
      }
      var key := view["id"].s;
      if key in views.entities {
        AddViewsErrorStops(st0, yamlViews, i + 1);
        return Fail(DuplicateId("view", key));
      }
      if "style" in view {
        if !Hashable(view["style"]) {
          AddViewsErrorStops(st0, yamlViews, i + 1);
          return Fail(Malformed("unhashable style"));
        }
        views.mustExist := views.mustExist + {view["style"]};
        views.styled := views.styled + [view];
        views.entities := views.entities[key := view];
      } else {
        var merged := MergeStyles(DefaultView, view, true);
        if merged.Err? {
          AddViewsErrorStops(st0, yamlViews, i + 1);
          return Fail(merged.error);
        }
        views.entities := views.entities[key := merged.value];
      }
      if "nodes" in view {
        var names := Members(view["nodes"]);
        if names.Err? {
          AddViewsErrorStops(st0, yamlViews, i + 1);
          return Fail(names.error);
        }
        nodes.mustExist := nodes.mustExist + set n | n in names.value :: Str(n);
      }
      i := i + 1;
    }
    assert yamlViews[..i] == yamlViews;
    return Pass;
  }

  lemma StoreViewResolvable(st: ViewState, v: Record)
    requires Resolvable(st.entities, st.styled)
    requires HasStrId(v) && IdOf(v) !in st.entities && StoreView(st, IdOf(v), v).Ok?
    ensures Resolvable(StoreView(st, IdOf(v), v).value.entities, StoreView(st, IdOf(v), v).value.styled)
  {
    if "style" in v {
      AddKeepsResolvable(st.entities, st.styled, v, true);
    } else {
      var merged := MergeStyles(DefaultView, v, true).value;
      MergeKeepsId(DefaultView, v, true, merged);
      AddKeepsResolvable(st.entities, st.styled, merged, false);
    }
  }

  lemma AddViewResolvable(st: ViewState, v: Record, st': ViewState)
    requires Resolvable(st.entities, st.styled)
    requires AddView(st, v) == Ok(st')
    ensures Resolvable(st'.entities, st'.styled)
  {
    var stored := StoreView(st, IdOf(v), v).value;
    assert st'.entities == stored.entities && st'.styled == stored.styled;
    StoreViewResolvable(st, v);
  }

  /** Parsing keeps the view store in the shape apply_styles needs: every
      view stored under its id, every styled view queued once. */
  lemma {:induction false} AddViewsResolvable(st: ViewState, yaml: seq<Record>)
    requires Resolvable(st.entities, st.styled)
    ensures AddViews(st, yaml).Ok? ==> Resolvable(AddViews(st, yaml).value.entities, AddViews(st, yaml).value.styled)
  {
    if |yaml| > 0 {
      var init := yaml[..|yaml| - 1];
      AddViewsResolvable(st, init);
      if AddViews(st, yaml).Ok? {
        AddViewResolvable(AddViews(st, init).value, yaml[|yaml| - 1], AddViews(st, yaml).value);
      }
    }
  }

  // ---------------------------------------------------------------------
  // select_neighbours_for_view

  /** The `Neighbours` constants. */
  datatype Policy = Direct | Explicit | Parent | RecursiveIn | RecursiveOut | RecursiveAll

  function PolicyName(p: Policy): string
  {
    match p
    case Direct => "direct"
    case Explicit => "explicit"
    case Parent => "parent"
    case RecursiveIn => "recursive_in"
    case RecursiveOut => "recursive_out"
    case RecursiveAll => "recursive_all"
  }

  /** The policy a `neighbours` value names; the dispatcher's chain of
      comparisons. */
  function PolicyOf(v: Value): (r: Option<Policy>)
    ensures r.Some? ==> v == Str(PolicyName(r.value))
    ensures r.None? ==> forall p :: v != Str(PolicyName(p))
  {
    if v == Str("explicit") then Some(Explicit)
    else if v == Str("direct") then Some(Direct)
    else if v == Str("parent") then Some(Parent)
    else if v == Str("recursive_in") then Some(RecursiveIn)
    else if v == Str("recursive_out") then Some(RecursiveOut)
    else if v == Str("recursive_all") then Some(RecursiveAll)
    else None
  }

  /** Every edge of the map has both endpoints among `shown`. */
  ghost predicate Joins(m: map<string, Record>, shown: set<string>)
  {
    forall e :: e in m ==> EdgeShaped(m[e]) && End(m[e], In) in shown && End(m[e], Out) in shown
  }

  lemma JoinsGrow(m: map<string, Record>, a: set<string>, b: set<string>)
    requires Joins(m, a) && a <= b
    ensures Joins(m, b)
  {
  }

  /** The kept edges join a requested node to an added one, and every
      synthesized edge joins the requested node it was met from to the
      ancestor that was added. */
  lemma ParentJoins(nodes: map<string, Record>, edges: map<string, Record>, view: set<string>,
                    p: Picked, via: map<string, Lift>, made: map<string, string>)
    requires ParentInv(nodes, edges, view, p.add, p.sel, p.custom, via, made)
    ensures Joins(p.sel, view + p.add) && Joins(p.custom, view + p.add)
  {
    forall c | c in p.custom
      ensures EdgeShaped(p.custom[c]) && End(p.custom[c], In) in view + p.add && End(p.custom[c], Out) in view + p.add
    {
      var l := via[made[c]];
      assert ValidLift(nodes, edges, view, l);
      var e := edges[l.edge];
      assert p.custom[c] == Retarget(e, Opposite(l.dir), made[c]);
      assert End(p.custom[c], Opposite(l.dir)) == made[c];
      assert End(p.custom[c], Opposite(Opposite(l.dir))) == End(e, l.dir);
      if l.dir == In {
        assert End(p.custom[c], In) in view;
      } else {
        assert End(p.custom[c], Out) in view;
      }
    }
  }

  /** What one recursive pass promises about the nodes it lists. */
  lemma RecursiveNodes(view: set<string>, nodes: map<string, Record>, p0: Picked, p: Picked, list: seq<string>)
    requires view <= nodes.Keys && p0.add <= nodes.Keys && view !! p0.add
    requires |view| <= |list| && Elems(list[..|view|]) == view
    requires p.add == (p0.add + Elems(list)) - view
    requires forall k :: |view| <= k < |list| ==> list[k] in nodes && list[k] !in p0.add + view
    ensures Elems(list) <= view + p.add && p0.add <= p.add && p.add <= nodes.Keys && view !! p.add
  {
    forall x | x in Elems(list) ensures x in nodes {
      var k :| 0 <= k < |list| && list[k] == x;
      if k < |view| {
        assert list[..|view|][k] == x;
      }
    }
  }

  /** A recursive pass keeps every edge its input had and adds edges from a
      listed node to a listed or previously added node, so the edges still
      join shown nodes. */
  lemma RecursiveJoins(view: set<string>, nodes: map<string, Record>, edges: map<string, Record>, dir: Dir,
                       p0: Picked, p: Picked, list: seq<string>, bfs: nat)
    requires Wf(nodes, edges) && Copies(p0.sel, edges)
    requires Joins(p0.sel, view + p0.add) && Joins(p0.custom, view + p0.add)
    requires bfs <= |list| && Elems(list) <= view + p.add && p0.add <= p.add
    requires p.custom == p0.custom && Copies(p.sel, edges)
    requires p.sel.Keys == p0.sel.Keys + Recursive.Spreads(nodes, edges, dir, Elems(list[..bfs]))
    requires forall e :: e in Recursive.Spreads(nodes, edges, dir, Elems(list[..bfs])) ==>
      End(edges[e], Opposite(dir)) in p0.add + Elems(list[..bfs])
    ensures Joins(p.sel, view + p.add) && Joins(p.custom, view + p.add)
  {
    Recursive.ElemsSplit(list, bfs);
    forall e | e in p.sel
      ensures EdgeShaped(p.sel[e]) && End(p.sel[e], In) in view + p.add && End(p.sel[e], Out) in view + p.add
    {
      if e !in p0.sel {
        assert End(edges[e], dir) in Elems(list[..bfs]);
        assert End(edges[e], Opposite(dir)) in p0.add + Elems(list[..bfs]);
        if dir == In {
          assert End(edges[e], Out) == End(edges[e], Opposite(dir));
        } else {
          assert End(edges[e], In) == End(edges[e], Opposite(dir));
        }
      }
    }
  }

  /** One recursive pass, with what it promises about the shown edges. */
  method Recurse(view: set<string>, nodes: map<string, Record>, edges: map<string, Record>, dir: Dir, p0: Picked)
    returns (r: Result<Picked>)
    requires Graph(nodes, edges) && view <= nodes.Keys && p0.add <= nodes.Keys && view !! p0.add
    requires Copies(p0.sel, edges) && Joins(p0.sel, view + p0.add) && Joins(p0.custom, view + p0.add)
    ensures r.Err? ==> r.error.Diverges?
    ensures r.Ok? ==> Copies(r.value.sel, edges) && p0.add <= r.value.add <= nodes.Keys && view !! r.value.add
    ensures r.Ok? ==> p0.sel.Keys <= r.value.sel.Keys && r.value.custom == p0.custom
    ensures r.Ok? ==> Joins(r.value.sel, view + r.value.add) && Joins(r.value.custom, view + r.value.add)
    ensures r.Ok? ==> Recursive.Recursed(nodes, edges, dir, view, p0, r.value)
  {
    ghost var list, bfs, why, chain;
    r, list, bfs, why, chain := Recursive.SelectRecursive(view, nodes, edges, dir, p0);
    if r.Ok? {
      RecursiveNodes(view, nodes, p0, r.value, list);
      RecursiveJoins(view, nodes, edges, dir, p0, r.value, list, bfs);
      Recursive.PassRecursed(view, nodes, edges, dir, p0, r.value, list, bfs, why, chain);
    }
  }

  /** Every synthesized edge is an edge at a requested node whose far end
      was lifted along a climb to a shown node strictly above it, filed
      under its regenerated id. */
  ghost predicate Lifted(nodes: map<string, Record>, edges: map<string, Record>, view: set<string>,
                         shown: set<string>, custom: map<string, Record>)
  {
    forall c :: c in custom ==>
      exists l: Lift :: ValidLift(nodes, edges, view, l) &&
        l.path[|l.path| - 1] in shown && l.path[|l.path| - 1] != l.path[0] &&
        custom[c] == Retarget(edges[l.edge], Opposite(l.dir), l.path[|l.path| - 1]) && IdOf(custom[c]) == c
  }

  /** What each policy promises about the node set `shown` it ends with,
      the edges it selects and the edges it synthesizes.  Explicit selection
      keeps exactly the edges between requested nodes and adds no node.
      Direct selection keeps every edge from a requested node to a node of
      the scope and adds the endpoints of the kept edges.  Parent selection
      adds only roots, keeps unchanged edges from a requested node to a
      shown one, synthesizes only lifted edges, and from the far end of
      every edge at a requested node some climb reaches a shown node.  The
      recursive selections are passes of the breadth-first walk, outward
      then inward for `recursive_all`, the second pass not walking through
      what the first added. */
  ghost predicate Picks(policy: Policy, view: set<string>, sub: map<string, Record>, edges: map<string, Record>,
                        shown: set<string>, sel: map<string, Record>, custom: map<string, Record>)
  {
    Wf(sub, edges) && view <= shown <= sub.Keys &&
    match policy
    case Explicit =>
      shown == view && custom == map[] &&
      forall e :: e in sel <==> e in edges && End(edges[e], In) in view && End(edges[e], Out) in view
    case Direct =>
      custom == map[] &&
      (forall e :: e in sel ==> e in edges) && shown == view + Ends(sel.Keys, edges) &&
      forall e :: e in sel <==>
        e in edges &&
        ((End(edges[e], In) in view && End(edges[e], Out) in sub) ||
         (End(edges[e], Out) in view && End(edges[e], In) in sub))
    case Parent =>
      (forall s :: s in shown ==> s in view || sub[s]["scope"].Null?) &&
      (forall s :: s in shown - view ==>
         exists l: Lift {:trigger ValidLift(sub, edges, view, l)} ::
           ValidLift(sub, edges, view, l) && l.path[|l.path| - 1] == s) &&
      KeptOk(sub, edges, view, shown, sel) && Lifted(sub, edges, view, shown, custom) &&
      forall e, d: Dir :: e in edges && End(edges[e], d) in view ==>
        Covered(sub, view, End(edges[e], Opposite(d)), shown)
    case RecursiveIn =>
      Recursive.Recursed(sub, edges, In, view, Picked(map[], map[], {}), Picked(sel, custom, shown - view))
    case RecursiveOut =>
      Recursive.Recursed(sub, edges, Out, view, Picked(map[], map[], {}), Picked(sel, custom, shown - view))
    case RecursiveAll =>
      exists mid :: Recursive.Recursed(sub, edges, Out, view, Picked(map[], map[], {}), mid) &&
        Recursive.Recursed(sub, edges, In, view, mid, Picked(sel, custom, shown - view))
  }

  /** What select_parent builds, stated over the node set it shows. */
  lemma ParentKept(nodes: map<string, Record>, edges: map<string, Record>, view: set<string>,
                    p: Picked, via: map<string, Lift>, made: map<string, string>)
    requires ParentInv(nodes, edges, view, p.add, p.sel, p.custom, via, made)
    requires forall e, d: Dir :: e in edges && End(edges[e], d) in view ==>
      Covered(nodes, view, End(edges[e], Opposite(d)), p.add)
    ensures KeptOk(nodes, edges, view, view + p.add, p.sel) && Lifted(nodes, edges, view, view + p.add, p.custom)
    ensures forall e, d: Dir :: e in edges && End(edges[e], d) in view ==>
      Covered(nodes, view, End(edges[e], Opposite(d)), view + p.add)
  {
    forall c | c in p.custom
      ensures exists l: Lift ::
                ValidLift(nodes, edges, view, l) &&
                l.path[|l.path| - 1] in view + p.add && l.path[|l.path| - 1] != l.path[0] &&
                p.custom[c] == Retarget(edges[l.edge], Opposite(l.dir), l.path[|l.path| - 1]) &&
                IdOf(p.custom[c]) == c
    {
      var l := via[made[c]];
      assert ValidLift(nodes, edges, view, l);
    }
    forall e, d: Dir | e in edges && End(edges[e], d) in view
      ensures Covered(nodes, view, End(edges[e], Opposite(d)), view + p.add)
    {
      CoveredGrows(nodes, view, End(edges[e], Opposite(d)), p.add, view + p.add);
    }
  }

  /** Every node parent selection shows beyond the requested ones ends a
      climb from an edge of a requested node. */
  lemma ParentShown(nodes: map<string, Record>, edges: map<string, Record>, view: set<string>,
                    add: set<string>, via: map<string, Lift>)
    requires AddedOk(nodes, edges, view, add, via)
    ensures forall s :: s in (view + add) - view ==>
      exists l: Lift {:trigger ValidLift(nodes, edges, view, l)} ::
        ValidLift(nodes, edges, view, l) && l.path[|l.path| - 1] == s
  {
    forall s | s in (view + add) - view
      ensures exists l: Lift {:trigger ValidLift(nodes, edges, view, l)} ::
        ValidLift(nodes, edges, view, l) && l.path[|l.path| - 1] == s
    {
      assert s in add;
      var l := via[s];
      assert ValidLift(nodes, edges, view, l) && l.path[|l.path| - 1] == s;
    }
  }

  /** The parent loop's invariant, with every far end covered, is what the
      parent policy promises. */
  lemma ParentPicks(nodes: map<string, Record>, edges: map<string, Record>, view: set<string>,
                    p: Picked, via: map<string, Lift>, made: map<string, string>)
    requires view <= nodes.Keys
    requires ParentInv(nodes, edges, view, p.add, p.sel, p.custom, via, made)
    requires forall e, d: Dir :: e in edges && End(edges[e], d) in view ==>
      Covered(nodes, view, End(edges[e], Opposite(d)), p.add)
    ensures Picks(Parent, view, nodes, edges, view + p.add, p.sel, p.custom)
  {
    ParentKept(nodes, edges, view, p, via, made);
    ParentShown(nodes, edges, view, p.add, via);
  }

  /** Parent selection run on its own, with the guarantees of the parent
      policy. */
  method PickParent(view: set<string>, sub: map<string, Record>, edges: map<string, Record>,
                    ghost depth: map<string, nat>)
    returns (r: Result<Picked>)
    requires Graph(sub, edges) && Ranked(sub, depth) && view <= sub.Keys
    ensures r.Err? ==> r.error.Malformed?
    ensures r.Ok? ==> Copies(r.value.sel, edges)
    ensures r.Ok? ==> Joins(r.value.sel, view + r.value.add) && Joins(r.value.custom, view + r.value.add)
    ensures r.Ok? ==> Picks(Parent, view, sub, edges, view + r.value.add, r.value.sel, r.value.custom)
    ensures r.Ok? ==> |r.value.sel| + |r.value.custom| <= |r.value.add|
  {
    ghost var via, made;
    r, via, made := SelectParent(view, sub, edges, depth);
    if r.Ok? {
      ParentJoins(sub, edges, view, r.value, via, made);
      ParentPicks(sub, edges, view, r.value, via, made);
    }
  }

  /** The edges, synthesized edges and extra nodes a policy picks for the
      requested nodes `view`, as the five select functions compute them.
      Only parent selection needs the scopes to form no cycle. */
  method Pick(policy: Policy, view: set<string>, sub: map<string, Record>, edges: map<string, Record>,
              ghost depth: map<string, nat>)
    returns (r: Result<Picked>)
    requires Graph(sub, edges) && (policy == Parent ==> Ranked(sub, depth)) && view <= sub.Keys
    ensures r.Err? ==> r.error.Malformed? || r.error.Diverges?
    ensures policy == Explicit || policy == Direct ==> r.Ok?
    ensures r.Ok? ==> Copies(r.value.sel, edges)
    ensures r.Ok? ==> Joins(r.value.sel, view + r.value.add) && Joins(r.value.custom, view + r.value.add)
    ensures r.Ok? ==> Picks(policy, view, sub, edges, view + r.value.add, r.value.sel, r.value.custom)
  {
    match policy
    case Explicit =>
      var sel := SelectExplicit(view, sub, edges);
      r := Ok(Picked(sel, map[], {}));
    case Direct =>
      var sel, add := SelectDirect(view, sub, edges);
      DirectWithinNodes(view, sub, edges, map e | e in edges && End(edges[e], In) in view && End(edges[e], Out) in view :: edges[e], sel);
      r := Ok(Picked(sel, map[], add));
    case Parent =>
      r := PickParent(view, sub, edges, depth);
    case RecursiveIn =>
      r := Recurse(view, sub, edges, In, Picked(map[], map[], {}));
      if r.Ok? {
        assert (view + r.value.add) - view == r.value.add;
      }
    case RecursiveOut =>
      r := Recurse(view, sub, edges, Out, Picked(map[], map[], {}));
      if r.Ok? {
        assert (view + r.value.add) - view == r.value.add;
      }
    case RecursiveAll =>
      var out := Recurse(view, sub, edges, Out, Picked(map[], map[], {}));
      if out.Err? {
        return out;
      }
      r := Recurse(view, sub, edges, In, out.value);
      if r.Ok? {
        assert (view + r.value.add) - view == r.value.add;
      }
  }

  /** A recursive pass takes every edge met in its direction at a requested
      node whose other end is a node, and shows that other end. */
  lemma RecursedTakes(nodes: map<string, Record>, edges: map<string, Record>, dir: Dir,
                      view: set<string>, p0: Picked, p: Picked, e: string)
    requires Recursive.Recursed(nodes, edges, dir, view, p0, p) && view <= nodes.Keys
    requires e in edges && End(edges[e], dir) in view && End(edges[e], Opposite(dir)) in nodes
    ensures e in p.sel && End(edges[e], Opposite(dir)) in view + p.add
  {
    var reach := Recursive.Reach(nodes, edges, dir, view, p0.add);
    Recursive.ReachHasView(nodes, edges, dir, view, p0.add);
    assert e in Recursive.Spreads(nodes, edges, dir, reach);
  }

  /** Every edge direct selection keeps, recursive_all keeps too, and every
      node direct selection shows, recursive_all shows too: the one-step
      neighbourhood lies inside both walks. */
  lemma DirectWithinRecursiveAll(view: set<string>, sub: map<string, Record>, edges: map<string, Record>,
                                 dShown: set<string>, dSel: map<string, Record>, dCustom: map<string, Record>,
                                 rShown: set<string>, rSel: map<string, Record>, rCustom: map<string, Record>)
    requires view <= sub.Keys
    requires Picks(Direct, view, sub, edges, dShown, dSel, dCustom)
    requires Picks(RecursiveAll, view, sub, edges, rShown, rSel, rCustom)
    ensures dSel.Keys <= rSel.Keys && dShown <= rShown
  {
    var mid :| Recursive.Recursed(sub, edges, Out, view, Picked(map[], map[], {}), mid) &&
      Recursive.Recursed(sub, edges, In, view, mid, Picked(rSel, rCustom, rShown - view));
    forall e | e in dSel ensures e in rSel && End(edges[e], In) in rShown && End(edges[e], Out) in rShown {
      TakenBothWays(view, sub, edges, mid, Picked(rSel, rCustom, rShown - view), e);
    }
    EndsWithin(dSel.Keys, edges, rShown);
  }

  /** An edge with one end requested and the other a known node is taken by
      the outward pass or by the inward pass after it. */
  lemma TakenBothWays(view: set<string>, sub: map<string, Record>, edges: map<string, Record>,
                      mid: Picked, p: Picked, e: string)
    requires view <= sub.Keys
    requires Recursive.Recursed(sub, edges, Out, view, Picked(map[], map[], {}), mid)
    requires Recursive.Recursed(sub, edges, In, view, mid, p)
    requires e in edges
    requires (End(edges[e], In) in view && End(edges[e], Out) in sub) ||
             (End(edges[e], Out) in view && End(edges[e], In) in sub)
    ensures e in p.sel && End(edges[e], In) in view + p.add && End(edges[e], Out) in view + p.add
  {
    assert mid.sel.Keys <= p.sel.Keys && mid.add <= p.add;
    if End(edges[e], In) in view && End(edges[e], Out) in sub {
      RecursedTakes(sub, edges, In, view, mid, p, e);
    } else {
      RecursedTakes(sub, edges, Out, view, Picked(map[], map[], {}), mid, e);
    }
  }

  lemma EndsWithin(keys: set<string>, edges: map<string, Record>, shown: set<string>)
    requires forall e :: e in keys ==> e in edges && EdgeShaped(edges[e])
    requires forall e :: e in keys ==> End(edges[e], In) in shown && End(edges[e], Out) in shown
    ensures Ends(keys, edges) <= shown
  {
  }

  /** A view once its node set is resolved.  `attrs` is the view's record as
      styled; the keys the engine reads and writes live in typed fields: the
      node set, the policy, the node map selection is confined to
      (`nodes_subset`), the expansion list, the selected and synthesized
      edges, and the tree built over the node set. */
  datatype View = View(attrs: Record, nodes: set<string>, neighbours: Value, subset: map<string, Record>,
                       expand: Value, edges: map<string, Record>, custom: map<string, Record>,
                       tree: Option<Tree.Forest>)

  /** The node map a view selects from: its `nodes_subset` when that is
      non-empty, all nodes otherwise. */
  function Scope(subset: map<string, Record>, nodes: map<string, Record>): map<string, Record>
  {
    if |subset| == 0 then nodes else subset
  }

  /** A `nodes_subset` holds node records exactly as the node map does. */
  ghost predicate SubsetOf(subset: map<string, Record>, nodes: map<string, Record>)
  {
    forall n :: n in subset ==> n in nodes && subset[n] == nodes[n]
  }

  /** What a rendered view can rely on: its nodes exist, its edges are
      unchanged edges of the graph, every edge it shows (kept or
      synthesized) joins two of its nodes, its subset is drawn from the
      node map, and a view with nodes has a tree. */
  ghost predicate Shown(w: View, nodes: map<string, Record>, edges: map<string, Record>)
  {
    w.nodes <= nodes.Keys && Copies(w.edges, edges) && Joins(w.edges, w.nodes) && Joins(w.custom, w.nodes) &&
    SubsetOf(w.subset, nodes) && (w.nodes != {} ==> w.tree.Some?)
  }

  /** `w` is `v` after neighbour selection: an empty view is left as it is;
      otherwise only the node set, the two edge maps and the tree change,
      the node set grows within the scope of the view as its policy
      promises, and the result is a shown view. */
  ghost predicate Selected(v: View, nodes: map<string, Record>, edges: map<string, Record>, w: View)
  {
    if v.nodes == {} then w == v
    else
      w == v.(nodes := w.nodes, edges := w.edges, custom := w.custom, tree := w.tree) &&
      v.nodes <= w.nodes && PolicyOf(v.neighbours).Some? && Shown(w, nodes, edges) &&
      Picks(PolicyOf(v.neighbours).value, v.nodes, Scope(v.subset, nodes), edges, w.nodes, w.edges, w.custom)
  }

  /** The scope of a view is a resolved graph in its own right. */
  lemma ScopeGraph(subset: map<string, Record>, nodes: map<string, Record>, edges: map<string, Record>,
                   depth: map<string, nat>)
    requires Graph(nodes, edges) && SubsetOf(subset, nodes)
    ensures Graph(Scope(subset, nodes), edges)
    ensures Ranked(nodes, depth) ==> Ranked(Scope(subset, nodes), depth)
    ensures SubsetOf(Scope(subset, nodes), nodes)
  {
    var sub := Scope(subset, nodes);
    assert sub == Restrict(nodes, sub.Keys);
    RestrictGraph(nodes, edges, sub.Keys);
  }

  /** The view put together from a policy's picks and the tree built over
      the grown node set is the selected view. */
  lemma Assembled(v: View, nodes: map<string, Record>, edges: map<string, Record>, policy: Policy,
                  p: Picked, tree: Tree.Forest)
    requires v.nodes != {} && PolicyOf(v.neighbours) == Some(policy) && SubsetOf(v.subset, nodes)
    requires SubsetOf(Scope(v.subset, nodes), nodes) && v.nodes <= Scope(v.subset, nodes).Keys
    requires Copies(p.sel, edges) && Joins(p.sel, v.nodes + p.add) && Joins(p.custom, v.nodes + p.add)
    requires Picks(policy, v.nodes, Scope(v.subset, nodes), edges, v.nodes + p.add, p.sel, p.custom)
    ensures Selected(v, nodes, edges, v.(nodes := v.nodes + p.add, edges := p.sel, custom := p.custom, tree := Some(tree)))
  {
  }

  /** The end of select_neighbours_for_view: the grown node set, the picked
      edges and the tree built over the grown node set, which reaches every
      node of it. */
  method Plant(v: View, nodes: map<string, Record>, edges: map<string, Record>, policy: Policy, p: Picked)
    returns (r: Result<View>)
    requires v.nodes != {} && PolicyOf(v.neighbours) == Some(policy) && SubsetOf(v.subset, nodes)
    requires SubsetOf(Scope(v.subset, nodes), nodes) && v.nodes <= Scope(v.subset, nodes).Keys
    requires Copies(p.sel, edges) && Joins(p.sel, v.nodes + p.add) && Joins(p.custom, v.nodes + p.add)
    requires Picks(policy, v.nodes, Scope(v.subset, nodes), edges, v.nodes + p.add, p.sel, p.custom)
    ensures r.Ok? ==> Selected(v, nodes, edges, r.value) && Tree.Good(r.value.tree.value)
    ensures r.Ok? ==> forall x {:trigger Tree.Placed(r.value.tree.value.tree, x)} :: x in r.value.nodes ==> Tree.Placed(r.value.tree.value.tree, x)
    ensures r.Err? ==> r.error.Malformed? || r.error.ScopeCycle?
  {
    var all := v.nodes + p.add;
    var tree;
    ghost var branches, merged;
    var b;
    tree, branches, b, merged := Tree.BuildTree(nodes, all);
    if tree.Err? {
      return Err(tree.error);
    }
    Assembled(v, nodes, edges, policy, p, tree.value);
    r := Ok(v.(nodes := all, edges := p.sel, custom := p.custom, tree := Some(tree.value)));
  }

  /** select_neighbours_for_view. */
  method SelectNeighbours(v: View, nodes: map<string, Record>, edges: map<string, Record>,
                          ghost depth: map<string, nat>)
    returns (r: Result<View>)
    requires Graph(nodes, edges) && SubsetOf(v.subset, nodes)
    requires PolicyOf(v.neighbours) == Some(Parent) ==> Ranked(nodes, depth)
    ensures r.Ok? ==> Selected(v, nodes, edges, r.value)
    ensures r.Ok? && v.nodes != {} ==> Tree.Good(r.value.tree.value)
    ensures r.Ok? && v.nodes != {} ==> forall x {:trigger Tree.Placed(r.value.tree.value.tree, x)} :: x in r.value.nodes ==> Tree.Placed(r.value.tree.value.tree, x)
    ensures v.nodes == {} ==> r == Ok(v)
    ensures v.nodes != {} && PolicyOf(v.neighbours).None? ==> r == Err(UnsupportedNeighbours(v.neighbours))
    ensures v.nodes != {} && !(v.nodes <= Scope(v.subset, nodes).Keys) ==> r.Err?
    ensures r.Err? ==>
      r.error.UnsupportedNeighbours? || r.error.Malformed? || r.error.Diverges? || r.error.ScopeCycle?
  {
    if |v.nodes| == 0 {
      return Ok(v);
    }
    var policy := PolicyOf(v.neighbours);
    if policy.None? {
      return Err(UnsupportedNeighbours(v.neighbours));
    }
    var sub := Scope(v.subset, nodes);
    if !(v.nodes <= sub.Keys) {
      return Err(Malformed("view node id"));
    }
    ScopeGraph(v.subset, nodes, edges, depth);
    var picked := Pick(policy.value, v.nodes, sub, edges, depth);
    if picked.Err? {
      return Err(picked.error);
    }
    r := Plant(v, nodes, edges, policy.value, picked.value);
  }

}
