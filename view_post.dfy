/** The post-pass over the views (postprocess in src/hiearch/hh_view.py):
    every view's node set is resolved from the nodes it names and the nodes
    its tags select, a default view stands in when every view comes out
    empty, every view goes through neighbour selection, and every view with
    an expansion list yields one expanded view per node and kind. */
module ViewPostprocess {
  import opened Values
  import opened Util
  import opened Store
  import Node
  import Edge
  import opened Select
  import opened View

  // ---------------------------------------------------------------------
  // the node set of each view

  /** A node list that names a node twice, found as `len(set(v)) != len(v)`
      (see DuplicatesIffSmallerSet); only a list or a string can repeat an
      element. */
  predicate Duplicated(v: Value)
  {
    Positional(v).Some? && HasDuplicates(Positional(v).value)
  }

  /** The ids a view names itself; None names none. */
  function Named(v: Value): set<string>
  {
    if v.Null? then {} else Members(v).value
  }

  /** The tags a view resolves with: a view that names no nodes and has no
      tags takes the tag `default`. */
  function ResolvedTags(named: Value, tags: Value): Value
  {
    if named.Null? && Edge.Len(tags) == Ok(0) then StrList(["default"]) else tags
  }

  /** The ids of the nodes some tag of `tags` selects. */
  ghost function TagSelection(nodes: map<string, Record>, tags: set<string>): set<string>
  {
    set k, t | k in nodes && t in tags && Node.Tagged(nodes[k], t) && HasStrId(nodes[k]) :: IdOf(nodes[k])
  }

  lemma TagSelectionStep(nodes: map<string, Record>, done: set<string>, t: string, found: set<string>)
    requires forall x :: x in found <==>
      exists k :: k in nodes && Node.Tagged(nodes[k], t) && HasStrId(nodes[k]) && IdOf(nodes[k]) == x
    ensures TagSelection(nodes, done + {t}) == TagSelection(nodes, done) + found
  {
    forall x | x in TagSelection(nodes, done + {t}) ensures x in TagSelection(nodes, done) + found {
      var k, u :| k in nodes && u in done + {t} && Node.Tagged(nodes[k], u) && HasStrId(nodes[k]) && IdOf(nodes[k]) == x;
      if u != t {
        assert x in TagSelection(nodes, done);
      }
    }
    forall x | x in found ensures x in TagSelection(nodes, done + {t}) {
      var k :| k in nodes && Node.Tagged(nodes[k], t) && HasStrId(nodes[k]) && IdOf(nodes[k]) == x;
      assert t in done + {t};
    }
  }

  /** The tag loop of one view: the union of get_nodes_by_tag over its
      tags, which fails as soon as one node cannot be read for one tag. */
  method SelectByTags(nodes: map<string, Record>, tags: set<string>) returns (r: Result<set<string>>)
    ensures r.Ok? <==> forall t, k :: t in tags && k in nodes ==> Node.Readable(nodes[k], t)
    ensures r.Ok? ==> r.value == TagSelection(nodes, tags)
    ensures r.Err? ==> r.error.Malformed?
  {
    var selection: set<string> := {};
    var rest := tags;
    while rest != {}
      invariant rest <= tags
      invariant selection == TagSelection(nodes, tags - rest)
      invariant forall t, k :: t in tags - rest && k in nodes ==> Node.Readable(nodes[k], t)
      decreases rest
    {
      var t :| t in rest;
      var found := Node.GetNodesByTag(nodes, t);
      if found.Err? {
        return Err(found.error);
      }
      TagSelectionStep(nodes, tags - rest, t, found.value);
      assert tags - (rest - {t}) == (tags - rest) + {t};
      selection := selection + found.value;
      rest := rest - {t};
    }
    assert tags - rest == tags;
    r := Ok(selection);
  }

  /** The node loop of postprocess for one view: the nodes it names (a list
      naming one twice is refused) together with the nodes each of its tags
      selects; a view naming no nodes and no tags takes the tag `default`.
      The result is the node set and the tags. */
  method ResolveNodes(key: string, rec: Record, nodes: map<string, Record>)
    returns (r: Result<(set<string>, Value)>)
    ensures r.Ok? ==> "nodes" in rec && "tags" in rec && !Duplicated(rec["nodes"])
    ensures r.Ok? ==> r.value.1 == ResolvedTags(rec["nodes"], rec["tags"]) && Members(r.value.1).Ok?
    ensures r.Ok? ==> r.value.0 == Named(rec["nodes"]) + TagSelection(nodes, Members(r.value.1).value)
    ensures "nodes" in rec && Duplicated(rec["nodes"]) ==> r == Err(DuplicateViewNode(key))
    ensures "nodes" in rec && "tags" in rec && rec["nodes"].Null? && rec["tags"].Null? ==> r.Err?
    ensures r.Err? ==> r.error.Malformed? || r.error == DuplicateViewNode(key)
  {
    if "nodes" !in rec {
      return Err(Malformed("view nodes"));
    }
    if Duplicated(rec["nodes"]) {
      return Err(DuplicateViewNode(key));
    }
    if "tags" !in rec {
      return Err(Malformed("view tags"));
    }
    var tags := ResolvedTags(rec["nodes"], rec["tags"]);
    var members := Members(tags);
    if members.Err? {
      return Err(members.error);
    }
    var selected := SelectByTags(nodes, members.value);
    if selected.Err? {
      return Err(selected.error);
    }
    r := Ok((Named(rec["nodes"]) + selected.value, tags));
  }

  /** A view as it starts selection: nothing selected, no tree, no subset. */
  predicate Fresh(w: View)
  {
    w.subset == map[] && w.edges == map[] && w.custom == map[] && w.tree == None
  }

  /** The typed view of a record whose node set and tags are resolved.  A
      record lacking a key the engine reads, or carrying a non-empty
      `nodes_subset`, is refused. */
  function ReadView(rec: Record, nodes: set<string>, tags: Value): (r: Result<View>)
    ensures r.Ok? <==> "neighbours" in rec && "expand" in rec && "nodes_subset" in rec && rec["nodes_subset"] == Dict(map[])
    ensures r.Ok? ==> Fresh(r.value) && r.value.nodes == nodes && r.value.attrs == rec["tags" := tags]
    ensures r.Ok? ==> r.value.neighbours == rec["neighbours"] && r.value.expand == rec["expand"]
  {
    if "neighbours" !in rec || "expand" !in rec || "nodes_subset" !in rec || rec["nodes_subset"] != Dict(map[]) then
      Err(Malformed("view record"))
    else Ok(View(rec["tags" := tags], nodes, rec["neighbours"], map[], rec["expand"], map[], map[], None))
  }

  /** `w` is the record `rec` with its node set resolved against `nodes`:
      the nodes it names and the nodes its (defaulted) tags select. */
  ghost predicate ResolvedView(rec: Record, nodes: map<string, Record>, w: View)
  {
    "nodes" in rec && "tags" in rec && !Duplicated(rec["nodes"]) &&
    var tags := ResolvedTags(rec["nodes"], rec["tags"]);
    Members(tags).Ok? && ReadView(rec, Named(rec["nodes"]) + TagSelection(nodes, Members(tags).value), tags) == Ok(w)
  }

  /** One view through the node loop, read into its typed form. */
  method ResolveView(key: string, rec: Record, nodes: map<string, Record>) returns (r: Result<View>)
    ensures r.Ok? ==> ResolvedView(rec, nodes, r.value)
    ensures "nodes" in rec && Duplicated(rec["nodes"]) ==> r == Err(DuplicateViewNode(key))
    ensures r.Err? ==> r.error.Malformed? || r.error == DuplicateViewNode(key)
  {
    var res := ResolveNodes(key, rec, nodes);
    if res.Err? {
      return Err(res.error);
    }
    r := ReadView(rec, res.value.0, res.value.1);
  }

  /** A resolved view starts selection fresh. */
  lemma ResolvedFresh(rec: Record, nodes: map<string, Record>, w: View)
    requires ResolvedView(rec, nodes, w)
    ensures Fresh(w) && w.attrs["tags"] == ResolvedTags(rec["nodes"], rec["tags"])
    ensures Named(rec["nodes"]) <= w.nodes
  {
  }

  /** Every view of `done` is its record resolved. */
  ghost predicate AllResolved(ents: map<string, Record>, nodes: map<string, Record>, done: map<string, View>)
  {
    done.Keys <= ents.Keys &&
    forall k {:trigger ResolvedView(ents[k], nodes, done[k])} :: k in done ==> ResolvedView(ents[k], nodes, done[k])
  }

  /** What the node loop of postprocess yields: every view resolved, and a
      count of empty views that equals the number of views exactly when
      every view is empty. */
  ghost predicate ResolvedAll(ents: map<string, Record>, nodes: map<string, Record>, vs: map<string, View>,
                              empty: nat)
  {
    vs.Keys == ents.Keys && AllResolved(ents, nodes, vs) &&
    (empty == |ents| <==> forall k :: k in vs ==> vs[k].nodes == {})
  }

  /** The node loop part way: the views of `done` are resolved, `rest` is
      still to do, and `empties` holds the keys of the views that came out
      empty. */
  ghost predicate Resolving(ents: map<string, Record>, nodes: map<string, Record>, rest: set<string>,
                            done: map<string, View>, empties: set<string>)
  {
    rest <= ents.Keys && done.Keys == ents.Keys - rest && empties <= done.Keys &&
    (forall k {:trigger ResolvedView(ents[k], nodes, done[k])} :: k in done ==> ResolvedView(ents[k], nodes, done[k])) &&
    (forall k :: k in done ==> (k in empties <==> done[k].nodes == {}))
  }

  lemma ResolvingStep(ents: map<string, Record>, nodes: map<string, Record>, rest: set<string>,
                      done: map<string, View>, empties: set<string>, k: string, w: View)
    requires Resolving(ents, nodes, rest, done, empties) && k in rest && ResolvedView(ents[k], nodes, w)
    ensures Resolving(ents, nodes, rest - {k}, done[k := w], if w.nodes == {} then empties + {k} else empties)
  {
    var done' := done[k := w];
    forall j | j in done' ensures ResolvedView(ents[j], nodes, done'[j]) {
      if j != k {
        assert ResolvedView(ents[j], nodes, done[j]);
      }
    }
  }

  lemma CountOne(empties: set<string>, keys: set<string>, k: string)
    requires empties <= keys && k !in keys
    ensures |empties + {k}| == |empties| + 1
  {
  }

  /** The empty views are all the views exactly when they are as many. */
  lemma CountAll(vs: map<string, View>, empties: set<string>)
    requires empties <= vs.Keys && forall k :: k in vs ==> (k in empties <==> vs[k].nodes == {})
    ensures |empties| == |vs| <==> forall k :: k in vs ==> vs[k].nodes == {}
  {
    if forall k :: k in vs ==> vs[k].nodes == {} {
      assert empties == vs.Keys;
    } else {
      var k :| k in vs && vs[k].nodes != {};
      assert vs.Keys == empties + (vs.Keys - empties);
      assert k in vs.Keys - empties;
    }
  }

  /** Counting the empty views decides whether all of them are empty. */
  lemma ResolvingDone(ents: map<string, Record>, nodes: map<string, Record>, done: map<string, View>,
                      empties: set<string>)
    requires Resolving(ents, nodes, {}, done, empties)
    ensures ResolvedAll(ents, nodes, done, |empties|)
  {
    CountAll(done, empties);
    SameSize(done, ents);
  }

  lemma SameSize<V, W>(a: map<string, V>, b: map<string, W>)
    requires a.Keys == b.Keys
    ensures |a| == |b|
  {
    assert |a| == |a.Keys|;
  }

  /** One turn of the node loop: view `k` resolved, stored and counted
      if it came out empty. */
  method ResolveInto(ents: map<string, Record>, nodes: map<string, Record>, rest: set<string>,
                     done: map<string, View>, ghost empties: set<string>, empty: nat, k: string)
    returns (r: Result<map<string, View>>, empty': nat, ghost empties': set<string>)
    requires Resolving(ents, nodes, rest, done, empties) && empty == |empties| && k in rest
    ensures r.Ok? ==> Resolving(ents, nodes, rest - {k}, r.value, empties') && empty' == |empties'|
    ensures "nodes" in ents[k] && Duplicated(ents[k]["nodes"]) ==> r.Err?
    ensures r.Err? ==> r.error.Malformed? || r.error.DuplicateViewNode?
  {
    empty', empties' := empty, empties;
    var w := ResolveView(k, ents[k], nodes);
    if w.Err? {
      return Err(w.error), empty', empties';
    }
    ResolvingStep(ents, nodes, rest, done, empties, k, w.value);
    if w.value.nodes == {} {
      CountOne(empties, done.Keys, k);
      empty' := empty + 1;
      empties' := empties + {k};
    }
    r := Ok(done[k := w.value]);
  }

  /** The node loop of postprocess over every view, counting the views that
      come out empty. */
  method ResolveViews(ents: map<string, Record>, nodes: map<string, Record>)
    returns (r: Result<map<string, View>>, empty: nat)
    ensures r.Ok? ==> ResolvedAll(ents, nodes, r.value, empty)
    ensures r.Err? ==> r.error.Malformed? || r.error.DuplicateViewNode?
  {
    var rest := ents.Keys;
    var done: map<string, View> := map[];
    ghost var empties: set<string> := {};
    empty := 0;
    while rest != {}
      invariant Resolving(ents, nodes, rest, done, empties) && empty == |empties|
      decreases rest
    {
      var k :| k in rest;
      var next;
      next, empty, empties := ResolveInto(ents, nodes, rest, done, empties, empty, k);
      if next.Err? {
        return Err(next.error), empty;
      }
      done := next.value;
      rest := rest - {k};
    }
    ResolvingDone(ents, nodes, done, empties);
    r := Ok(done);
  }

  /** A view of a record that names a node twice is never resolved. */
  lemma DuplicateRefused(ents: map<string, Record>, nodes: map<string, Record>, vs: map<string, View>, empty: nat)
    requires ResolvedAll(ents, nodes, vs, empty)
    ensures forall k :: k in ents && "nodes" in ents[k] ==> !Duplicated(ents[k]["nodes"])
  {
    forall k | k in ents && "nodes" in ents[k] ensures !Duplicated(ents[k]["nodes"]) {
      assert ResolvedView(ents[k], nodes, vs[k]);
    }
  }

  /** The record of the default view postprocess falls back to. */
  const DefaultRecord: Record := DefaultView["tags" := StrList(["default"])]

  /** The default view postprocess falls back to: tagged `default` and
      showing what that tag selects. */
  ghost function DefaultOf(nodes: map<string, Record>): View
  {
    View(DefaultRecord, TagSelection(nodes, {"default"}), Str("explicit"), map[], StrList([]), map[], map[], None)
  }

  /** The nodes tagged `default` are those of the default view. */
  lemma DefaultFound(nodes: map<string, Record>, found: set<string>)
    requires forall x :: x in found <==>
      exists k :: k in nodes && Node.Tagged(nodes[k], "default") && HasStrId(nodes[k]) && IdOf(nodes[k]) == x
    ensures DefaultOf(nodes).nodes == TagSelection(nodes, {"default"}) == found
  {
    TagSelectionStep(nodes, {}, "default", found);
    assert {} + {"default"} == {"default"};
  }

  /** The fallback when every view is empty: the default view, tagged
      `default` and showing what that tag selects, replaces any view of that
      name; when the tag selects nothing, every view is empty. */
  method AddDefault(vs: map<string, View>, allEmpty: bool, nodes: map<string, Record>)
    returns (r: Result<map<string, View>>)
    ensures !allEmpty ==> r == Ok(vs)
    ensures allEmpty && r.Ok? ==>
      r.value == vs["default" := DefaultOf(nodes)] && DefaultOf(nodes).nodes != {}
    ensures allEmpty && (forall k :: k in nodes ==> Node.Readable(nodes[k], "default")) ==>
      (r.Ok? <==> TagSelection(nodes, {"default"}) != {})
    ensures r.Err? ==> r.error == AllViewsEmpty || r.error.Malformed?
  {
    if !allEmpty {
      return Ok(vs);
    }
    var found := Node.GetNodesByTag(nodes, "default");
    if found.Err? {
      return Err(found.error);
    }
    DefaultFound(nodes, found.value);
    if |found.value| == 0 {
      return Err(AllViewsEmpty);
    }
    r := Ok(vs["default" := View(DefaultRecord, found.value, Str("explicit"), map[], StrList([]), map[], map[], None)]);
  }

  // ---------------------------------------------------------------------
  // selection

  /** Every view of `done` is its view of `vs` after selection. */
  ghost predicate Collected(vs: map<string, View>, nodes: map<string, Record>, edges: map<string, Record>,
                            done: map<string, View>)
  {
    forall k :: k in done ==> k in vs && Selected(vs[k], nodes, edges, done[k])
  }

  /** The invariant of the select loop: the views no longer in `rest` are
      selected. */
  ghost predicate Selecting(vs: map<string, View>, nodes: map<string, Record>, edges: map<string, Record>,
                            rest: set<string>, done: map<string, View>)
  {
    rest <= vs.Keys && done.Keys == vs.Keys - rest && Collected(vs, nodes, edges, done)
  }

  lemma SelectingStep(vs: map<string, View>, nodes: map<string, Record>, edges: map<string, Record>,
                      rest: set<string>, done: map<string, View>, k: string, w: View)
    requires Selecting(vs, nodes, edges, rest, done) && k in rest && Selected(vs[k], nodes, edges, w)
    ensures Selecting(vs, nodes, edges, rest - {k}, done[k := w])
  {
    forall j | j in done[k := w] ensures j in vs && Selected(vs[j], nodes, edges, done[k := w][j]) {
      if j != k {
        assert done[k := w][j] == done[j];
      }
    }
  }

  /** Every view of `vs` that selects by scope parent has a scope ranking. */
  ghost predicate ParentsRanked(vs: map<string, View>, nodes: map<string, Record>, depth: map<string, nat>)
  {
    forall k :: k in vs && PolicyOf(vs[k].neighbours) == Some(Parent) ==> Ranked(nodes, depth)
  }

  /** The select loop of postprocess: every view goes through
      select_neighbours_for_view. */
  method SelectAll(vs: map<string, View>, nodes: map<string, Record>, edges: map<string, Record>,
                   ghost depth: map<string, nat>)
    returns (r: Result<map<string, View>>)
    requires Graph(nodes, edges) && ParentsRanked(vs, nodes, depth)
    requires forall k :: k in vs ==> SubsetOf(vs[k].subset, nodes)
    ensures r.Ok? ==> r.value.Keys == vs.Keys && Collected(vs, nodes, edges, r.value)
    ensures r.Err? ==>
      r.error.UnsupportedNeighbours? || r.error.Malformed? || r.error.Diverges? || r.error.ScopeCycle?
  {
    var rest := vs.Keys;
    var done: map<string, View> := map[];
    while rest != {}
      invariant Selecting(vs, nodes, edges, rest, done)
      decreases rest
    {
      var k :| k in rest;
      var w := SelectNeighbours(vs[k], nodes, edges, depth);
      if w.Err? {
        return Err(w.error);
      }
      SelectingStep(vs, nodes, edges, rest, done, k, w.value);
      done := done[k := w.value];
      rest := rest - {k};
    }
    r := Ok(done);
  }

  /** A view that starts fresh is shown once selected, and keeps at least
      the nodes it started with. */
  lemma SelectedShown(v: View, nodes: map<string, Record>, edges: map<string, Record>, w: View)
    requires Fresh(v) && Selected(v, nodes, edges, w)
    ensures Shown(w, nodes, edges) && v.nodes <= w.nodes
  {
  }

  // ---------------------------------------------------------------------
  // expansion

  /** The expansion kinds postprocess accepts. */
  const ExpandKinds: set<string> := {"recursive_in", "recursive_out", "recursive_all"}

  /** The expansion list of `v` is a list of kinds postprocess accepts. */
  predicate Supported(v: View)
  {
    v.expand.StrList? && forall t :: t in v.expand.items ==> t in ExpandKinds
  }

  /** The expansion list of `v`, if it is a list. */
  function Kinds(v: View): seq<string>
  {
    if v.expand.StrList? then v.expand.items else []
  }

  /** `t` is an entry of the expansion list of `v` that postprocess refuses. */
  predicate Unsupported(v: View, t: Value)
  {
    v.expand.StrList? && t.Str? && t.s in v.expand.items && t.s !in ExpandKinds
  }

  /** The id of the view expanding `node` of view `viewId` by `kind`. */
  function ExpandedId(viewId: string, node: string, kind: string): string
  {
    viewId + "_" + node + "_" + kind
  }

  /** The nodes an expansion of `v` is confined to: the subset of `v`
      together with the nodes `v` shows. */
  function Confine(v: View, nodes: map<string, Record>): (c: map<string, Record>)
    ensures SubsetOf(v.subset, nodes) ==> SubsetOf(c, nodes)
    ensures c.Keys == v.subset.Keys + (v.nodes * nodes.Keys)
  {
    v.subset + Restrict(nodes, v.nodes)
  }

  /** The view that expands `node` of `v` by `kind`, before its selection:
      a copy of `v` with no expansion, confined to `confine`, starting from
      `node` alone under the policy `kind`. */
  function Seed(viewId: string, v: View, confine: map<string, Record>, node: string, kind: string): View
  {
    v.(attrs := v.attrs["expanded_from" := Str(viewId)]["id" := Str(ExpandedId(viewId, node, kind))],
       expand := StrList([]), subset := confine, nodes := {node}, neighbours := Str(kind))
  }

  /** `w` is the expansion of `node` of `v` by `kind`, confined to `confine`
      (which postprocess takes to be `Confine(v, nodes)`). */
  ghost predicate ExpansionOf(viewId: string, v: View, confine: map<string, Record>, nodes: map<string, Record>,
                              edges: map<string, Record>, w: View, node: string, kind: string)
  {
    node in v.nodes && kind in ExpandKinds && Selected(Seed(viewId, v, confine, node, kind), nodes, edges, w)
  }

  /** An expanded view starts from its node, is marked with the view it
      expands, and shows only nodes that view shows or was confined to. */
  lemma ExpansionWithin(viewId: string, v: View, nodes: map<string, Record>, edges: map<string, Record>,
                        w: View, node: string, kind: string)
    requires v.nodes <= nodes.Keys && SubsetOf(v.subset, nodes)
    requires ExpansionOf(viewId, v, Confine(v, nodes), nodes, edges, w, node, kind)
    ensures node in w.nodes && w.nodes <= v.nodes + v.subset.Keys
    ensures w.neighbours == Str(kind) && w.expand == StrList([])
    ensures w.attrs == v.attrs["expanded_from" := Str(viewId)]["id" := Str(ExpandedId(viewId, node, kind))]
    ensures Shown(w, nodes, edges)
  {
    var seed := Seed(viewId, v, Confine(v, nodes), node, kind);
    assert node in seed.subset;
    assert Scope(seed.subset, nodes) == seed.subset;
  }

  /** The view itself after the expansion pass: a view with a non-empty
      expansion list is marked as expanded from itself and its list emptied. */
  function Updated(viewId: string, v: View): (u: View)
    ensures u.nodes == v.nodes && u.edges == v.edges && u.custom == v.custom && u.subset == v.subset
    ensures u.tree == v.tree && u.neighbours == v.neighbours
    ensures v.expand.StrList? && v.expand.items != [] ==>
      u.expand == StrList([]) && u.attrs == v.attrs["expanded_from" := Str(viewId)]
    ensures !(v.expand.StrList? && v.expand.items != []) ==> u == v
  {
    if v.expand.StrList? && v.expand.items != [] then
      v.(attrs := v.attrs["expanded_from" := Str(viewId)], expand := StrList([]))
    else v
  }

  /** Every node of `ns` has an expanded view for every kind of `kinds`. */
  ghost predicate Covers(viewId: string, ns: set<string>, kinds: seq<string>, gen: map<string, View>)
  {
    forall n, t :: n in ns && t in kinds ==> ExpandedId(viewId, n, t) in gen
  }

  /** `w`, stored under `k`, is the expansion by a kind of `kinds` that
      the origin `o` names, and `k` is its id. */
  ghost predicate Entry(viewId: string, v: View, confine: map<string, Record>,
                        nodes: map<string, Record>, edges: map<string, Record>, kinds: seq<string>,
                        k: string, w: View, o: (string, string))
  {
    o.1 in kinds && k == ExpandedId(viewId, o.0, o.1) && ExpansionOf(viewId, v, confine, nodes, edges, w, o.0, o.1)
  }

  /** Each view of `gen` is the expansion `origin` names, by a kind of
      `kinds`, stored under its id. */
  ghost predicate Expansions(viewId: string, v: View, confine: map<string, Record>,
                             nodes: map<string, Record>, edges: map<string, Record>, kinds: seq<string>,
                             gen: map<string, View>, origin: map<string, (string, string)>)
  {
    gen.Keys == origin.Keys &&
    forall k :: k in gen ==> Entry(viewId, v, confine, nodes, edges, kinds, k, gen[k], origin[k])
  }

  /** The expanded views of `v` for the kinds `kinds`: one for every node and
      kind, each the expansion its origin names (the last one written,
      should two share an id). */
  ghost predicate Generated(viewId: string, v: View, confine: map<string, Record>,
                            nodes: map<string, Record>, edges: map<string, Record>, kinds: seq<string>,
                            gen: map<string, View>, origin: map<string, (string, string)>)
  {
    Covers(viewId, v.nodes, kinds, gen) && Expansions(viewId, v, confine, nodes, edges, kinds, gen, origin)
  }

  /** Storing the expansion of `n` by `kind` keeps every id already
      covered and covers `n`. */
  lemma CoversStep(viewId: string, ns: set<string>, kinds: seq<string>, kind: string, done: set<string>,
                   gen: map<string, View>, n: string, w: View)
    requires Covers(viewId, ns, kinds, gen) && Covers(viewId, done, [kind], gen)
    ensures Covers(viewId, ns, kinds, gen[ExpandedId(viewId, n, kind) := w])
    ensures Covers(viewId, done + {n}, [kind], gen[ExpandedId(viewId, n, kind) := w])
  {
  }

  /** Storing the expansion of `n` by `kind` under its id, with its origin,
      keeps every stored view the expansion its origin names. */
  lemma ExpandStep(viewId: string, v: View, confine: map<string, Record>,
                   nodes: map<string, Record>, edges: map<string, Record>, kinds: seq<string>,
                   gen: map<string, View>, origin: map<string, (string, string)>, n: string, kind: string, w: View)
    requires Expansions(viewId, v, confine, nodes, edges, kinds, gen, origin)
    requires Entry(viewId, v, confine, nodes, edges, kinds, ExpandedId(viewId, n, kind), w, (n, kind))
    ensures Expansions(viewId, v, confine, nodes, edges, kinds, gen[ExpandedId(viewId, n, kind) := w],
                       origin[ExpandedId(viewId, n, kind) := (n, kind)])
  {
    var id := ExpandedId(viewId, n, kind);
    var gen', origin' := gen[id := w], origin[id := (n, kind)];
    forall j | j in gen'
      ensures Entry(viewId, v, confine, nodes, edges, kinds, j, gen'[j], origin'[j])
    {
      if j != id {
        assert gen'[j] == gen[j] && origin'[j] == origin[j];
      }
    }
  }

  lemma ExpansionsWiden(viewId: string, v: View, confine: map<string, Record>,
                        nodes: map<string, Record>, edges: map<string, Record>, kinds: seq<string>, kind: string,
                        gen: map<string, View>, origin: map<string, (string, string)>)
    requires Expansions(viewId, v, confine, nodes, edges, kinds, gen, origin)
    ensures Expansions(viewId, v, confine, nodes, edges, kinds + [kind], gen, origin)
  {
    forall k | k in gen ensures Entry(viewId, v, confine, nodes, edges, kinds + [kind], k, gen[k], origin[k]) {
      assert Entry(viewId, v, confine, nodes, edges, kinds, k, gen[k], origin[k]);
    }
  }

  lemma GeneratedJoin(viewId: string, v: View, confine: map<string, Record>, nodes: map<string, Record>, edges: map<string, Record>,
                      kinds: seq<string>, kind: string, gen: map<string, View>,
                      origin: map<string, (string, string)>)
    requires Covers(viewId, v.nodes, kinds, gen) && Covers(viewId, v.nodes, [kind], gen)
    requires Expansions(viewId, v, confine, nodes, edges, kinds + [kind], gen, origin)
    ensures Generated(viewId, v, confine, nodes, edges, kinds + [kind], gen, origin)
  {
    forall n, t | n in v.nodes && t in kinds + [kind] ensures ExpandedId(viewId, n, t) in gen {
      if t !in kinds {
        assert t in [kind];
      }
    }
  }

  /** The invariant of the node loop for `kind`: the kinds before it are
      covered, the nodes no longer in `rest` are covered for `kind`, and
      every stored view is an expansion. */
  ghost predicate Expanding(viewId: string, v: View, confine: map<string, Record>,
                            nodes: map<string, Record>, edges: map<string, Record>, kinds: seq<string>,
                            kind: string, rest: set<string>, gen: map<string, View>,
                            origin: map<string, (string, string)>)
  {
    rest <= v.nodes && Covers(viewId, v.nodes, kinds, gen) && Covers(viewId, v.nodes - rest, [kind], gen) &&
    Expansions(viewId, v, confine, nodes, edges, kinds + [kind], gen, origin)
  }

  lemma ExpandingStep(viewId: string, v: View, confine: map<string, Record>,
                      nodes: map<string, Record>, edges: map<string, Record>, kinds: seq<string>,
                      kind: string, rest: set<string>, gen: map<string, View>,
                      origin: map<string, (string, string)>, n: string, w: View)
    requires Expanding(viewId, v, confine, nodes, edges, kinds, kind, rest, gen, origin)
    requires n in rest && ExpansionOf(viewId, v, confine, nodes, edges, w, n, kind)
    ensures Expanding(viewId, v, confine, nodes, edges, kinds, kind, rest - {n},
                      gen[ExpandedId(viewId, n, kind) := w], origin[ExpandedId(viewId, n, kind) := (n, kind)])
  {
    CoversStep(viewId, v.nodes, kinds, kind, v.nodes - rest, gen, n, w);
    assert v.nodes - (rest - {n}) == (v.nodes - rest) + {n};
    assert kind in kinds + [kind];
    ExpandStep(viewId, v, confine, nodes, edges, kinds + [kind], gen, origin, n, kind, w);
  }

  /** The node loop of the expansion for one kind: every node of the view
      yields the view selected from that node alone by that kind. */
  method ExpandKind(viewId: string, v: View, confine: map<string, Record>,
                    nodes: map<string, Record>, edges: map<string, Record>,
                    kind: string, ghost kinds: seq<string>,
                    gen0: map<string, View>, ghost origin0: map<string, (string, string)>)
    returns (failure: Option<Error>, gen: map<string, View>, ghost origin: map<string, (string, string)>)
    requires Graph(nodes, edges) && SubsetOf(confine, nodes)
    requires kind in ExpandKinds && Generated(viewId, v, confine, nodes, edges, kinds, gen0, origin0)
    ensures failure.None? ==> Generated(viewId, v, confine, nodes, edges, kinds + [kind], gen, origin)
    ensures failure.Some? ==> failure.value.UnsupportedNeighbours? || failure.value.Malformed? ||
                              failure.value.Diverges? || failure.value.ScopeCycle?
  {
    gen, origin := gen0, origin0;
    ExpansionsWiden(viewId, v, confine, nodes, edges, kinds, kind, gen, origin);
    var rest := v.nodes;
    while rest != {}
      invariant Expanding(viewId, v, confine, nodes, edges, kinds, kind, rest, gen, origin)
      decreases rest
    {
      var n :| n in rest;
      var w := SelectNeighbours(Seed(viewId, v, confine, n, kind), nodes, edges, map[]);
      if w.Err? {
        return Some(w.error), gen, origin;
      }
      ExpandingStep(viewId, v, confine, nodes, edges, kinds, kind, rest, gen, origin, n, w.value);
      var id := ExpandedId(viewId, n, kind);
      gen := gen[id := w.value];
      origin := origin[id := (n, kind)];
      rest := rest - {n};
    }
    GeneratedJoin(viewId, v, confine, nodes, edges, kinds, kind, gen, origin);
    failure := None;
  }

  /** The expansion of one view: an `expand` that is not a list is refused;
      each kind in turn must be supported and yields one expanded view per
      node of the view. */
  method ExpandView(viewId: string, v: View, nodes: map<string, Record>, edges: map<string, Record>)
    returns (r: Result<(View, map<string, View>)>, ghost origin: map<string, (string, string)>)
    requires Graph(nodes, edges) && SubsetOf(v.subset, nodes)
    ensures !v.expand.StrList? ==> r == Err(ExpandNotList(viewId))
    ensures v.expand == StrList([]) ==> r == Ok((v, map[]))
    ensures r.Ok? ==> Supported(v)
    ensures r.Ok? ==> r.value.0 == Updated(viewId, v)
    ensures r.Ok? ==> Generated(viewId, v, Confine(v, nodes), nodes, edges, Kinds(v), r.value.1, origin)
    ensures r.Err? && r.error.ExpandNotList? ==> r.error.view == viewId && !v.expand.StrList?
    ensures r.Err? && r.error.UnsupportedExpand? ==> Unsupported(v, r.error.expandType) && r.error.view == viewId
    ensures r.Err? ==>
      r.error.ExpandNotList? || r.error.UnsupportedExpand? || r.error.UnsupportedNeighbours? ||
      r.error.Malformed? || r.error.Diverges? || r.error.ScopeCycle?
  {
    origin := map[];
    if !v.expand.StrList? {
      return Err(ExpandNotList(viewId)), origin;
    }
    var kinds := v.expand.items;
    if |kinds| == 0 {
      return Ok((v, map[])), origin;
    }
    if !(v.nodes <= nodes.Keys) {
      return Err(Malformed("view node id")), origin;
    }
    var confine := Confine(v, nodes);
    var gen: map<string, View> := map[];
    var i := 0;
    while i < |kinds|
      invariant 0 <= i <= |kinds|
      invariant forall t :: t in kinds[..i] ==> t in ExpandKinds
      invariant Generated(viewId, v, confine, nodes, edges, kinds[..i], gen, origin)
    {
      var kind := kinds[i];
      if kind !in ExpandKinds {
        return Err(UnsupportedExpand(Str(kind), viewId)), origin;
      }
      var failure;
      failure, gen, origin := ExpandKind(viewId, v, confine, nodes, edges, kind, kinds[..i], gen, origin);
      if failure.Some? {
        return Err(failure.value), origin;
      }
      assert kinds[..i + 1] == kinds[..i] + [kind];
      i := i + 1;
    }
    assert kinds[..i] == kinds;
    r := Ok((Updated(viewId, v), gen));
  }

  // ---------------------------------------------------------------------
  // all views

  /** The origins of the expansions of view `viewId`, tagged with it. */
  ghost function Lift(viewId: string, o: map<string, (string, string)>): (l: map<string, (string, string, string)>)
    ensures l.Keys == o.Keys
    ensures forall j :: j in o ==> l[j] == (viewId, o[j].0, o[j].1)
  {
    map j | j in o :: (viewId, o[j].0, o[j].1)
  }

  /** `w`, stored under `k`, is the expansion of node `o.1` of view `o.0`
      of `vs` by the kind `o.2`. */
  ghost predicate Expanded(vs: map<string, View>, nodes: map<string, Record>, edges: map<string, Record>,
                           k: string, w: View, o: (string, string, string))
  {
    o.0 in vs &&
    Entry(o.0, vs[o.0], Confine(vs[o.0], nodes), nodes, edges, Kinds(vs[o.0]), k, w, (o.1, o.2))
  }

  /** Every view of `add` is the expansion `origin` names. */
  ghost predicate Additional(vs: map<string, View>, nodes: map<string, Record>, edges: map<string, Record>,
                             add: map<string, View>, origin: map<string, (string, string, string)>)
  {
    add.Keys == origin.Keys && forall k :: k in add ==> Expanded(vs, nodes, edges, k, add[k], origin[k])
  }

  /** Every node of every view of `done` has an expanded view in `out` for
      every kind of its expansion list. */
  ghost predicate CoveredAll(vs: map<string, View>, done: set<string>, out: map<string, View>)
  {
    forall viewId, n, t :: viewId in done && viewId in vs && n in vs[viewId].nodes && t in Kinds(vs[viewId]) ==>
      ExpandedId(viewId, n, t) in out
  }

  /** `out` is `vs` after the expansion pass: every view of `vs` is kept,
      and each view is either an expansion, as `origin` names it, or a view
      of `vs` marked by `Updated`; no expansion is missing. */
  ghost predicate ExpandedFrom(vs: map<string, View>, nodes: map<string, Record>, edges: map<string, Record>,
                               out: map<string, View>, origin: map<string, (string, string, string)>)
  {
    vs.Keys <= out.Keys && origin.Keys <= out.Keys &&
    (forall k :: k in out ==>
      if k in origin then Expanded(vs, nodes, edges, k, out[k], origin[k])
      else k in vs && out[k] == Updated(k, vs[k])) &&
    CoveredAll(vs, vs.Keys, out)
  }

  /** The invariant of the expansion loop. */
  ghost predicate ExpandingAll(vs: map<string, View>, nodes: map<string, Record>, edges: map<string, Record>,
                               rest: set<string>, updated: map<string, View>, add: map<string, View>,
                               origin: map<string, (string, string, string)>)
  {
    rest <= vs.Keys && updated.Keys == vs.Keys - rest &&
    (forall k :: k in updated ==> Supported(vs[k]) && updated[k] == Updated(k, vs[k])) &&
    Additional(vs, nodes, edges, add, origin) && CoveredAll(vs, vs.Keys - rest, add)
  }

  lemma AdditionalStep(vs: map<string, View>, nodes: map<string, Record>, edges: map<string, Record>,
                       add: map<string, View>, origin: map<string, (string, string, string)>,
                       k: string, gen: map<string, View>, o: map<string, (string, string)>)
    requires Additional(vs, nodes, edges, add, origin) && k in vs
    requires Expansions(k, vs[k], Confine(vs[k], nodes), nodes, edges, Kinds(vs[k]), gen, o)
    ensures Additional(vs, nodes, edges, add + gen, origin + Lift(k, o))
  {
    var add', origin' := add + gen, origin + Lift(k, o);
    forall j | j in add' ensures Expanded(vs, nodes, edges, j, add'[j], origin'[j]) {
      if j in gen {
        assert add'[j] == gen[j] && origin'[j] == Lift(k, o)[j];
        LiftedEntry(vs, nodes, edges, k, gen, o, j);
      } else {
        assert add'[j] == add[j] && origin'[j] == origin[j];
      }
    }
  }

  /** An expansion of view `k` is an expansion of `vs`, once its origin is
      tagged with `k`. */
  lemma LiftedEntry(vs: map<string, View>, nodes: map<string, Record>, edges: map<string, Record>,
                    k: string, gen: map<string, View>, o: map<string, (string, string)>, j: string)
    requires k in vs && Expansions(k, vs[k], Confine(vs[k], nodes), nodes, edges, Kinds(vs[k]), gen, o)
    requires j in gen
    ensures Expanded(vs, nodes, edges, j, gen[j], Lift(k, o)[j])
  {
    assert Entry(k, vs[k], Confine(vs[k], nodes), nodes, edges, Kinds(vs[k]), j, gen[j], o[j]);
  }

  lemma CoveredStep(vs: map<string, View>, done: set<string>, add: map<string, View>,
                    k: string, gen: map<string, View>)
    requires CoveredAll(vs, done, add) && k in vs && Covers(k, vs[k].nodes, Kinds(vs[k]), gen)
    ensures CoveredAll(vs, done + {k}, add + gen)
  {
  }

  lemma ExpandingAllStep(vs: map<string, View>, nodes: map<string, Record>, edges: map<string, Record>,
                         rest: set<string>, updated: map<string, View>, add: map<string, View>,
                         origin: map<string, (string, string, string)>,
                         k: string, gen: map<string, View>, o: map<string, (string, string)>)
    requires ExpandingAll(vs, nodes, edges, rest, updated, add, origin) && k in rest && Supported(vs[k])
    requires Generated(k, vs[k], Confine(vs[k], nodes), nodes, edges, Kinds(vs[k]), gen, o)
    ensures ExpandingAll(vs, nodes, edges, rest - {k}, updated[k := Updated(k, vs[k])], add + gen,
                         origin + Lift(k, o))
  {
    AdditionalStep(vs, nodes, edges, add, origin, k, gen, o);
    CoveredStep(vs, vs.Keys - rest, add, k, gen);
    assert vs.Keys - (rest - {k}) == (vs.Keys - rest) + {k};
  }

  lemma ExpandedAll(vs: map<string, View>, nodes: map<string, Record>, edges: map<string, Record>,
                    updated: map<string, View>, add: map<string, View>,
                    origin: map<string, (string, string, string)>)
    requires ExpandingAll(vs, nodes, edges, {}, updated, add, origin)
    ensures ExpandedFrom(vs, nodes, edges, updated + add, origin)
  {
    var out := updated + add;
    forall k | k in out
      ensures if k in origin then Expanded(vs, nodes, edges, k, out[k], origin[k])
              else k in vs && out[k] == Updated(k, vs[k])
    {
      if k in add {
        assert out[k] == add[k];
      } else {
        assert out[k] == updated[k];
      }
    }
  }

  /** The expansion loop of postprocess: each view is expanded in turn, and
      the expanded views are added to the views last, replacing any view of
      the same id. */
  method ExpandAll(vs: map<string, View>, nodes: map<string, Record>, edges: map<string, Record>)
    returns (r: Result<map<string, View>>, ghost origin: map<string, (string, string, string)>)
    requires Graph(nodes, edges)
    requires forall k :: k in vs ==> SubsetOf(vs[k].subset, nodes)
    ensures r.Ok? ==> forall k :: k in vs ==> Supported(vs[k])
    ensures r.Ok? ==> ExpandedFrom(vs, nodes, edges, r.value, origin)
    ensures r.Err? && r.error.ExpandNotList? ==> r.error.view in vs && !vs[r.error.view].expand.StrList?
    ensures r.Err? && r.error.UnsupportedExpand? ==>
      r.error.view in vs && Unsupported(vs[r.error.view], r.error.expandType)
    ensures r.Err? ==>
      r.error.ExpandNotList? || r.error.UnsupportedExpand? || r.error.UnsupportedNeighbours? ||
      r.error.Malformed? || r.error.Diverges? || r.error.ScopeCycle?
  {
    var rest := vs.Keys;
    var updated: map<string, View> := map[];
    var add: map<string, View> := map[];
    origin := map[];
    while rest != {}
      invariant ExpandingAll(vs, nodes, edges, rest, updated, add, origin)
      decreases rest
    {
      var k :| k in rest;
      var e, o := ExpandView(k, vs[k], nodes, edges);
      if e.Err? {
        return Err(e.error), origin;
      }
      ExpandingAllStep(vs, nodes, edges, rest, updated, add, origin, k, e.value.1, o);
      updated := updated[k := e.value.0];
      add := add + e.value.1;
      origin := origin + Lift(k, o);
      rest := rest - {k};
    }
    ExpandedAll(vs, nodes, edges, updated, add, origin);
    r := Ok(updated + add);
  }

  // ---------------------------------------------------------------------
  // postprocess

  /** Once selected, fresh views are shown and keep the nodes they had. */
  lemma CollectedShown(vs: map<string, View>, nodes: map<string, Record>, edges: map<string, Record>,
                       selected: map<string, View>)
    requires forall k :: k in vs ==> Fresh(vs[k])
    requires selected.Keys == vs.Keys && Collected(vs, nodes, edges, selected)
    ensures forall k :: k in selected ==> Shown(selected[k], nodes, edges) && vs[k].nodes <= selected[k].nodes
    ensures (exists k :: k in vs && vs[k].nodes != {}) ==> exists k :: k in selected && selected[k].nodes != {}
  {
    forall k | k in selected ensures Shown(selected[k], nodes, edges) && vs[k].nodes <= selected[k].nodes {
      SelectedShown(vs[k], nodes, edges, selected[k]);
    }
  }

  /** Selected views keep their subset, so it stays one of the nodes. */
  lemma CollectedSubset(vs: map<string, View>, nodes: map<string, Record>, edges: map<string, Record>,
                        selected: map<string, View>)
    requires selected.Keys == vs.Keys && Collected(vs, nodes, edges, selected)
    requires forall k :: k in vs ==> SubsetOf(vs[k].subset, nodes)
    ensures forall k :: k in selected ==> SubsetOf(selected[k].subset, nodes)
  {
    forall k | k in selected ensures SubsetOf(selected[k].subset, nodes) {
      assert Selected(vs[k], nodes, edges, selected[k]);
    }
  }

  /** The expansion pass keeps every view shown, and a view that shows a
      node is still one, whether kept or replaced by an expansion. */
  lemma ExpandedShown(vs: map<string, View>, nodes: map<string, Record>, edges: map<string, Record>,
                      out: map<string, View>, origin: map<string, (string, string, string)>)
    requires forall k :: k in vs ==> Shown(vs[k], nodes, edges)
    requires ExpandedFrom(vs, nodes, edges, out, origin)
    ensures forall k :: k in out ==> Shown(out[k], nodes, edges)
    ensures forall k :: k in vs && vs[k].nodes != {} ==> out[k].nodes != {}
    ensures (exists k :: k in vs && vs[k].nodes != {}) ==> exists k :: k in out && out[k].nodes != {}
  {
    forall k | k in out ensures Shown(out[k], nodes, edges) && (k in vs && vs[k].nodes != {} ==> out[k].nodes != {}) {
      if k in origin {
        var o := origin[k];
        ExpansionWithin(o.0, vs[o.0], nodes, edges, out[k], o.1, o.2);
      }
    }
  }

  /** The views before selection: the resolved ones, with the default view
      added when all of them are empty. */
  ghost function WithDefault(vs: map<string, View>, nodes: map<string, Record>): map<string, View>
  {
    if forall k :: k in vs ==> vs[k].nodes == {} then vs["default" := DefaultOf(nodes)] else vs
  }

  lemma WithDefaultKeys(vs: map<string, View>, nodes: map<string, Record>)
    ensures vs.Keys <= WithDefault(vs, nodes).Keys
  {
  }

  /** Every view selection starts from is fresh, and one of them shows a
      node. */
  lemma StartFresh(ents: map<string, Record>, nodes: map<string, Record>, views: map<string, View>)
    requires AllResolved(ents, nodes, views)
    requires (forall k :: k in views ==> views[k].nodes == {}) ==> DefaultOf(nodes).nodes != {}
    ensures forall k :: k in WithDefault(views, nodes) ==>
      Fresh(WithDefault(views, nodes)[k]) && SubsetOf(WithDefault(views, nodes)[k].subset, nodes)
    ensures exists k :: k in WithDefault(views, nodes) && WithDefault(views, nodes)[k].nodes != {}
  {
    var all := WithDefault(views, nodes);
    forall k | k in all ensures Fresh(all[k]) && SubsetOf(all[k].subset, nodes) {
      if k in views && all[k] == views[k] {
        ResolvedFresh(ents[k], nodes, views[k]);
      }
    }
    if k :| k in views && views[k].nodes != {} {
      assert k in all && all[k].nodes != {};
    } else {
      assert "default" in all && all["default"].nodes != {};
    }
  }

  /** Node resolution and the default view: the records resolved into
      views, with the default view added when all of them are empty. */
  method ResolveAll(ents: map<string, Record>, nodes: map<string, Record>)
    returns (r: Result<map<string, View>>, ghost views: map<string, View>)
    ensures r.Ok? ==>
      views.Keys == ents.Keys && AllResolved(ents, nodes, views) &&
      ((forall k :: k in views ==> views[k].nodes == {}) ==> DefaultOf(nodes).nodes != {}) &&
      r.value == WithDefault(views, nodes)
    ensures r.Err? ==> r.error.Malformed? || r.error.DuplicateViewNode? || r.error.AllViewsEmpty?
  {
    var typed, empty := ResolveViews(ents, nodes);
    views := map[];
    if typed.Err? {
      return Err(typed.error), views;
    }
    views := typed.value;
    r := AddDefault(typed.value, empty == |ents|, nodes);
  }

  /** What postprocess leaves behind, stage by stage: `views` are the
      records `resolved` resolved into views; `selected` are those views,
      with the default view when all of them are empty, after selection;
      `out` is `selected` after the expansion pass, whose expansions
      `origin` names. */
  ghost predicate Postprocessed(nodes: map<string, Record>, edges: map<string, Record>, resolved: map<string, Record>,
                                views: map<string, View>, selected: map<string, View>, out: map<string, View>,
                                origin: map<string, (string, string, string)>)
  {
    views.Keys == resolved.Keys && AllResolved(resolved, nodes, views) &&
    ((forall k :: k in views ==> views[k].nodes == {}) ==> DefaultOf(nodes).nodes != {}) &&
    selected.Keys == WithDefault(views, nodes).Keys && Collected(WithDefault(views, nodes), nodes, edges, selected) &&
    ExpandedFrom(selected, nodes, edges, out, origin)
  }

  /** After selection every view is kept, every view is shown, and some
      view shows a node. */
  lemma SelectedAllShown(nodes: map<string, Record>, edges: map<string, Record>, resolved: map<string, Record>,
                         views: map<string, View>, selected: map<string, View>)
    requires views.Keys == resolved.Keys && AllResolved(resolved, nodes, views)
    requires (forall k :: k in views ==> views[k].nodes == {}) ==> DefaultOf(nodes).nodes != {}
    requires selected.Keys == WithDefault(views, nodes).Keys && Collected(WithDefault(views, nodes), nodes, edges, selected)
    ensures resolved.Keys <= selected.Keys && forall k :: k in selected ==> Shown(selected[k], nodes, edges)
    ensures exists k :: k in selected && selected[k].nodes != {}
  {
    WithDefaultKeys(views, nodes);
    StartFresh(resolved, nodes, views);
    CollectedShown(WithDefault(views, nodes), nodes, edges, selected);
  }

  /** After postprocess every view is kept, every view is shown, and some
      view shows a node. */
  lemma PostprocessedShown(nodes: map<string, Record>, edges: map<string, Record>, resolved: map<string, Record>,
                           views: map<string, View>, selected: map<string, View>, out: map<string, View>,
                           origin: map<string, (string, string, string)>)
    requires Postprocessed(nodes, edges, resolved, views, selected, out, origin)
    ensures resolved.Keys <= out.Keys && forall k :: k in out ==> Shown(out[k], nodes, edges)
    ensures exists k :: k in out && out[k].nodes != {}
  {
    SelectedAllShown(nodes, edges, resolved, views, selected);
    ExpandedShown(selected, nodes, edges, out, origin);
  }

  /** Parent selection, the only one that needs the scopes ranked, is
      reached only when the scopes are ranked: when no record names the
      parent policy, neither does any view read from them, nor the default
      view. */
  lemma ParentRanked(ents: map<string, Record>, nodes: map<string, Record>, views: map<string, View>,
                     depth: map<string, nat>)
    requires views.Keys == ents.Keys && AllResolved(ents, nodes, views)
    requires Ranked(nodes, depth) || Avoids(ents, "neighbours", Str("parent"))
    ensures ParentsRanked(WithDefault(views, nodes), nodes, depth)
  {
    forall k | k in views && !Ranked(nodes, depth) ensures views[k].neighbours != Str("parent") {
      assert ResolvedView(ents[k], nodes, views[k]);
    }
  }

  /** The style step of postprocess(views, nodes, edges): missing
      references, then styles; a record naming `parent` after styling was
      already named before it. */
  method Restyle(mustExist: set<Value>, entities: map<string, Record>, styled: seq<Record>,
                 ghost nodes: map<string, Record>, ghost depth: map<string, nat>)
    returns (pending: seq<Record>, r: Result<map<string, Record>>)
    requires Resolvable(entities, styled)
    requires Ranked(nodes, depth) || Avoids(entities, "neighbours", Str("parent"))
    ensures r.Ok? ==> forall k :: k in mustExist ==> Present(k, entities)
    ensures r.Ok? ==> multiset(pending) == multiset(styled) && StylesApplied(styled, entities, r.value)
    ensures r.Ok? ==> Ranked(nodes, depth) || Avoids(r.value, "neighbours", Str("parent"))
    ensures r.Err? ==> r.error.MissingId? || r.error.StyleCycle? || r.error.Malformed?
  {
    pending := styled;
    var check := CheckKeyExistence(mustExist, entities, "view");
    if check.Fail? {
      return pending, Err(check.error);
    }
    pending, r := ApplyStyles(styled, entities);
  }

  /** The first half of postprocess(views, nodes, edges): missing
      references, styles, node resolution and the default view. */
  method Prepare(mustExist: set<Value>, entities: map<string, Record>, styled: seq<Record>,
                 nodes: map<string, Record>, ghost depth: map<string, nat>)
    returns (pending: seq<Record>, r: Result<map<string, View>>, ghost resolved: map<string, Record>,
             ghost views: map<string, View>)
    requires Resolvable(entities, styled)
    requires Ranked(nodes, depth) || Avoids(entities, "neighbours", Str("parent"))
    ensures r.Ok? ==> forall k :: k in mustExist ==> Present(k, entities)
    ensures r.Ok? ==> multiset(pending) == multiset(styled) && StylesApplied(styled, entities, resolved)
    ensures r.Ok? ==>
      views.Keys == resolved.Keys && AllResolved(resolved, nodes, views) &&
      ((forall k :: k in views ==> views[k].nodes == {}) ==> DefaultOf(nodes).nodes != {}) &&
      r.value == WithDefault(views, nodes) && ParentsRanked(r.value, nodes, depth) &&
      forall k :: k in r.value ==> SubsetOf(r.value[k].subset, nodes)
    ensures r.Err? ==>
      r.error.MissingId? || r.error.StyleCycle? || r.error.Malformed? || r.error.DuplicateViewNode? ||
      r.error.AllViewsEmpty?
  {
    resolved, views := entities, map[];
    var applied;
    pending, applied := Restyle(mustExist, entities, styled, nodes, depth);
    if applied.Err? {
      return pending, Err(applied.error), resolved, views;
    }
    resolved := applied.value;
    r, views := ResolveAll(applied.value, nodes);
    if r.Ok? {
      StartFresh(resolved, nodes, views);
      ParentRanked(resolved, nodes, views, depth);
    }
  }

  /** postprocess(views, nodes, edges) on values: missing references,
      styles, node resolution, the default view, selection and expansion,
      in that order. */
  method Resolve(mustExist: set<Value>, entities: map<string, Record>, styled: seq<Record>,
                 nodes: map<string, Record>, edges: map<string, Record>, ghost depth: map<string, nat>)
    returns (pending: seq<Record>, r: Result<map<string, View>>, ghost resolved: map<string, Record>,
             ghost views: map<string, View>, ghost selected: map<string, View>,
             ghost origin: map<string, (string, string, string)>)
    requires Resolvable(entities, styled) && Graph(nodes, edges)
    requires Ranked(nodes, depth) || Avoids(entities, "neighbours", Str("parent"))
    ensures r.Ok? ==> forall k :: k in mustExist ==> Present(k, entities)
    ensures r.Ok? ==> multiset(pending) == multiset(styled) && StylesApplied(styled, entities, resolved)
    ensures r.Ok? ==> Postprocessed(nodes, edges, resolved, views, selected, r.value, origin)
    ensures r.Err? ==>
      r.error.MissingId? || r.error.StyleCycle? || r.error.Malformed? || r.error.DuplicateViewNode? ||
      r.error.AllViewsEmpty? || r.error.ExpandNotList? || r.error.UnsupportedExpand? ||
      r.error.UnsupportedNeighbours? || r.error.Diverges? || r.error.ScopeCycle?
  {
    selected, origin := map[], map[];
    var all;
    pending, all, resolved, views := Prepare(mustExist, entities, styled, nodes, depth);
    if all.Err? {
      return pending, Err(all.error), resolved, views, selected, origin;
    }
    var sel := SelectAll(all.value, nodes, edges, depth);
    if sel.Err? {
      return pending, Err(sel.error), resolved, views, selected, origin;
    }
    selected := sel.value;
    CollectedSubset(all.value, nodes, edges, selected);
    r, origin := ExpandAll(sel.value, nodes, edges);
  }

  /** postprocess(views, nodes, edges), writing the style queue back into
      the store and returning the resolved views. */
  method Postprocess(views: ParsedEntities, nodes: map<string, Record>, edges: map<string, Record>,
                     ghost depth: map<string, nat>)
    returns (r: Result<map<string, View>>, ghost resolved: map<string, Record>, ghost typed: map<string, View>,
             ghost selected: map<string, View>, ghost origin: map<string, (string, string, string)>)
    requires Resolvable(views.entities, views.styled) && Graph(nodes, edges)
    requires Ranked(nodes, depth) || Avoids(views.entities, "neighbours", Str("parent"))
    modifies views`styled
    ensures r.Ok? ==> forall k :: k in views.mustExist ==> Present(k, views.entities)
    ensures r.Ok? ==>
      multiset(views.styled) == multiset(old(views.styled)) &&
      StylesApplied(old(views.styled), views.entities, resolved)
    ensures r.Ok? ==> Postprocessed(nodes, edges, resolved, typed, selected, r.value, origin)
  {
    var pending;
    pending, r, resolved, typed, selected, origin :=
      Resolve(views.mustExist, views.entities, views.styled, nodes, edges, depth);
    views.styled := pending;
  }
}
