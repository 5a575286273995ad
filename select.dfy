/** The neighbour-selection policies of a view: which edges a view shows and
    which nodes it pulls in besides the ones it names
    (src/hiearch/hh_view.py, select_explicit, select_direct, select_parent,
    select_recursive). */
module Select {
  import opened Values
  import Edge

  // ---------------------------------------------------------------------
  // The resolved graph the policies read

  /** The two adjacency directions of a node and the endpoint keys of an edge. */
  datatype Dir = In | Out

  function Key(d: Dir): string
  {
    match d
    case In => "in"
    case Out => "out"
  }

  /** The module's `opposite` table. */
  function Opposite(d: Dir): Dir
  {
    match d
    case In => Out
    case Out => In
  }

  /** A node record as node postprocessing leaves it: two adjacency sets of
      edge ids and a scope that is a set of ids or None. */
  predicate NodeShaped(n: Record)
  {
    "in" in n && n["in"].StrSet? && "out" in n && n["out"].StrSet? &&
    "scope" in n && (n["scope"].Null? || n["scope"].StrSet?)
  }

  /** An edge record with both endpoints set to node ids. */
  predicate EdgeShaped(e: Record)
  {
    "in" in e && e["in"].Str? && "out" in e && e["out"].Str?
  }

  function Adj(n: Record, d: Dir): set<string>
    requires NodeShaped(n)
  {
    n[Key(d)].elems
  }

  function End(e: Record, d: Dir): string
    requires EdgeShaped(e)
  {
    e[Key(d)].s
  }

  /** The scope set of a node, empty for a root. */
  function Scopes(n: Record): set<string>
    requires NodeShaped(n)
  {
    if n["scope"].StrSet? then n["scope"].elems else {}
  }

  ghost predicate Shaped(nodes: map<string, Record>)
  {
    forall n :: n in nodes ==> NodeShaped(nodes[n])
  }

  /** Every node and every edge is shaped. */
  ghost predicate Wf(nodes: map<string, Record>, edges: map<string, Record>)
  {
    Shaped(nodes) && forall k :: k in edges ==> EdgeShaped(edges[k])
  }

  /** The graph after node postprocessing: every node is shaped, every edge
      has two endpoints, and a node's `in` (`out`) set holds exactly the
      edges whose `in` (`out`) endpoint is that node. */
  ghost predicate Graph(nodes: map<string, Record>, edges: map<string, Record>)
  {
    Wf(nodes, edges) &&
    (forall n, d: Dir, e :: n in nodes ==>
      (e in Adj(nodes[n], d) <==> e in edges && End(edges[e], d) == n))
  }

  /** The restriction of a node map to some of its keys. */
  function Restrict(nodes: map<string, Record>, keep: set<string>): (sub: map<string, Record>)
    ensures sub.Keys == nodes.Keys * keep
    ensures forall n :: n in sub ==> sub[n] == nodes[n]
  {
    map n | n in nodes && n in keep :: nodes[n]
  }

  /** Adjacency is a property of each node record, so a restriction of a
      resolved graph is one as well; expanded views rely on it. */
  lemma RestrictGraph(nodes: map<string, Record>, edges: map<string, Record>, keep: set<string>)
    requires Graph(nodes, edges)
    ensures Graph(Restrict(nodes, keep), edges)
  {
  }

  /** The selected edge map holds unchanged copies of edges. */
  ghost predicate Copies(sel: map<string, Record>, edges: map<string, Record>)
  {
    forall e :: e in sel ==> e in edges && sel[e] == edges[e]
  }

  // ---------------------------------------------------------------------
  // select_explicit and select_direct

  /** Edge `e` is met from a node of `from` and its far end lies in `targets`. */
  ghost predicate Reached(nodes: map<string, Record>, edges: map<string, Record>,
                          from: set<string>, targets: set<string>, e: string)
    requires Graph(nodes, edges)
  {
    e in edges &&
    exists n, d: Dir :: n in from && n in nodes && e in Adj(nodes[n], d) && End(edges[e], Opposite(d)) in targets
  }

  /** With exact adjacency, an edge is met from `from` with far end in
      `targets` when one endpoint is in `from` and the other in `targets`. */
  lemma ReachedByEnds(nodes: map<string, Record>, edges: map<string, Record>,
                      from: set<string>, targets: set<string>, e: string)
    requires Graph(nodes, edges) && from <= nodes.Keys
    ensures Reached(nodes, edges, from, targets, e) <==>
      e in edges &&
      ((End(edges[e], In) in from && End(edges[e], Out) in targets) ||
       (End(edges[e], Out) in from && End(edges[e], In) in targets))
  {
    if e in edges {
      var a, b := End(edges[e], In), End(edges[e], Out);
      if a in from && b in targets {
        assert e in Adj(nodes[a], In) && End(edges[e], Opposite(In)) in targets;
      }
      if b in from && a in targets {
        assert e in Adj(nodes[b], Out) && End(edges[e], Opposite(Out)) in targets;
      }
      if Reached(nodes, edges, from, targets, e) {
        var n, d: Dir :| n in from && n in nodes && e in Adj(nodes[n], d) && End(edges[e], Opposite(d)) in targets;
        assert End(edges[e], d) == n;
      }
    }
  }

  /** The inner loop over one adjacency set: keep the edges whose end in
      direction `far` lies in `targets`. */
  method AddMatching(adj: set<string>, edges: map<string, Record>, far: Dir, targets: set<string>,
                     sel0: map<string, Record>)
    returns (sel: map<string, Record>)
    requires forall e :: e in adj ==> e in edges && EdgeShaped(edges[e])
    requires Copies(sel0, edges)
    ensures Copies(sel, edges)
    ensures sel.Keys == sel0.Keys + set e | e in adj && End(edges[e], far) in targets
  {
    sel := sel0;
    var rest := adj;
    while rest != {}
      invariant rest <= adj && Copies(sel, edges)
      invariant sel.Keys == sel0.Keys + set e | e in adj - rest && End(edges[e], far) in targets
      decreases rest
    {
      var e :| e in rest;
      if End(edges[e], far) in targets {
        sel := sel[e := edges[e]];
      }
      rest := rest - {e};
    }
  }

  lemma ReachedStep(nodes: map<string, Record>, edges: map<string, Record>,
                    done: set<string>, n: string, targets: set<string>, e: string)
    requires Graph(nodes, edges) && n in nodes
    ensures Reached(nodes, edges, done + {n}, targets, e) <==>
      Reached(nodes, edges, done, targets, e) ||
      (e in Adj(nodes[n], In) && End(edges[e], Out) in targets) ||
      (e in Adj(nodes[n], Out) && End(edges[e], In) in targets)
  {
    if e in Adj(nodes[n], In) && End(edges[e], Out) in targets {
      assert Opposite(In) == Out;
    }
    if e in Adj(nodes[n], Out) && End(edges[e], In) in targets {
      assert Opposite(Out) == In;
    }
  }

  /** The two outer loops shared by select_explicit and select_direct: every
      edge at a node of `from` whose far end is in `targets`. */
  method ScanNodes(from: set<string>, nodes: map<string, Record>, edges: map<string, Record>,
                   targets: set<string>)
    returns (sel: map<string, Record>)
    requires Graph(nodes, edges) && from <= nodes.Keys
    ensures Copies(sel, edges)
    ensures forall e :: e in sel <==> Reached(nodes, edges, from, targets, e)
  {
    sel := map[];
    var rest := from;
    while rest != {}
      invariant rest <= from && Copies(sel, edges)
      invariant forall e :: e in sel <==> Reached(nodes, edges, from - rest, targets, e)
      decreases rest
    {
      var n :| n in rest;
      ghost var before := sel;
      sel := AddMatching(Adj(nodes[n], In), edges, Out, targets, sel);
      sel := AddMatching(Adj(nodes[n], Out), edges, In, targets, sel);
      forall e ensures e in sel <==> Reached(nodes, edges, from - (rest - {n}), targets, e) {
        assert from - (rest - {n}) == (from - rest) + {n};
        ReachedStep(nodes, edges, from - rest, n, targets, e);
      }
      rest := rest - {n};
    }
  }

  /** select_explicit: exactly the edges both of whose endpoints the view names. */
  method SelectExplicit(view: set<string>, nodes: map<string, Record>, edges: map<string, Record>)
    returns (sel: map<string, Record>)
    requires Graph(nodes, edges) && view <= nodes.Keys
    ensures Copies(sel, edges)
    ensures forall e :: e in sel <==> e in edges && End(edges[e], In) in view && End(edges[e], Out) in view
  {
    sel := ScanNodes(view, nodes, edges, view);
    forall e ensures e in sel <==> e in edges && End(edges[e], In) in view && End(edges[e], Out) in view {
      ReachedByEnds(nodes, edges, view, view, e);
    }
  }

  /** Both endpoints of the given edges. */
  function Ends(keys: set<string>, edges: map<string, Record>): (r: set<string>)
    requires forall e :: e in keys ==> e in edges && EdgeShaped(edges[e])
    ensures forall e :: e in keys ==> End(edges[e], In) in r && End(edges[e], Out) in r
  {
    (set e | e in keys :: End(edges[e], In)) + (set e | e in keys :: End(edges[e], Out))
  }

  /** The second loop of select_direct: the endpoints of the selected edges. */
  method CollectEnds(keys: set<string>, edges: map<string, Record>) returns (add: set<string>)
    requires forall e :: e in keys ==> e in edges && EdgeShaped(edges[e])
    ensures add == Ends(keys, edges)
  {
    add := {};
    var rest := keys;
    while rest != {}
      invariant rest <= keys
      invariant add == Ends(keys - rest, edges)
      decreases rest
    {
      var e :| e in rest;
      add := add + {End(edges[e], In), End(edges[e], Out)};
      rest := rest - {e};
      assert keys - rest == (keys - (rest + {e})) + {e};
    }
  }

  /** select_direct: every edge with one endpoint in the view and the other
      anywhere among the nodes, and the endpoints of those edges as the
      nodes to add. */
  method SelectDirect(view: set<string>, nodes: map<string, Record>, edges: map<string, Record>)
    returns (sel: map<string, Record>, add: set<string>)
    requires Graph(nodes, edges) && view <= nodes.Keys
    ensures Copies(sel, edges)
    ensures forall e :: e in sel <==>
      e in edges &&
      ((End(edges[e], In) in view && End(edges[e], Out) in nodes) ||
       (End(edges[e], Out) in view && End(edges[e], In) in nodes))
    ensures add == Ends(sel.Keys, edges)
  {
    sel := ScanNodes(view, nodes, edges, nodes.Keys);
    forall e ensures e in sel <==>
      e in edges &&
      ((End(edges[e], In) in view && End(edges[e], Out) in nodes) ||
       (End(edges[e], Out) in view && End(edges[e], In) in nodes))
    {
      ReachedByEnds(nodes, edges, view, nodes.Keys, e);
    }
    add := CollectEnds(sel.Keys, edges);
  }

  /** Direct selection adds only existing nodes, and its edges include those
      explicit selection picks over the same view. */
  lemma {:induction false} DirectWithinNodes(view: set<string>, nodes: map<string, Record>, edges: map<string, Record>,
                                             explicit: map<string, Record>, direct: map<string, Record>)
    requires Graph(nodes, edges) && view <= nodes.Keys
    requires forall e :: e in explicit <==> e in edges && End(edges[e], In) in view && End(edges[e], Out) in view
    requires forall e :: e in direct <==>
      e in edges &&
      ((End(edges[e], In) in view && End(edges[e], Out) in nodes) ||
       (End(edges[e], Out) in view && End(edges[e], In) in nodes))
    ensures explicit.Keys <= direct.Keys
    ensures Ends(direct.Keys, edges) <= nodes.Keys
  {
    forall x | x in Ends(direct.Keys, edges) ensures x in nodes {
      var e :| e in direct.Keys && (x == End(edges[e], In) || x == End(edges[e], Out));
    }
  }

  // ---------------------------------------------------------------------
  // select_parent

  function Dep(depth: map<string, nat>, x: string): nat
  {
    if x in depth then depth[x] else 0
  }

  /** `depth` ranks the scope relation: every scope of a node lies strictly
      below the node.  Such a ranking exists exactly when scopes form no
      cycle; on a cycle the climbs of select_parent need not end. */
  ghost predicate Ranked(nodes: map<string, Record>, depth: map<string, nat>)
  {
    Shaped(nodes) &&
    forall n, y :: n in nodes && y in Scopes(nodes[n]) ==> Dep(depth, y) < Dep(depth, n)
  }

  /** Every id some scope set names. */
  ghost function AllScopes(nodes: map<string, Record>): set<string>
    requires Shaped(nodes)
  {
    set n, y | n in nodes && y in Scopes(nodes[n]) :: y
  }

  /** A climb from `p[0]`: every step leaves a node the view does not name
      for one of that node's scopes. */
  ghost predicate UpPath(nodes: map<string, Record>, view: set<string>, p: seq<string>)
  {
    Shaped(nodes) && |p| > 0 &&
    forall i :: 0 <= i < |p| - 1 ==> p[i] in nodes && p[i] !in view && p[i + 1] in Scopes(nodes[p[i]])
  }

  /** `p` climbs from `a` to `b`. */
  ghost predicate Climbed(nodes: map<string, Record>, view: set<string>, p: seq<string>, a: string, b: string)
  {
    UpPath(nodes, view, p) && p[0] == a && p[|p| - 1] == b
  }

  /** A climb goes on from a node the view does not name to any of its scopes. */
  lemma UpPathStep(nodes: map<string, Record>, view: set<string>, p: seq<string>, scope: set<string>)
    requires Shaped(nodes) && UpPath(nodes, view, p)
    requires p[|p| - 1] in nodes && p[|p| - 1] !in view && scope == Scopes(nodes[p[|p| - 1]])
    ensures forall y :: y in scope ==> UpPath(nodes, view, p + [y])
  {
    forall y | y in scope ensures UpPath(nodes, view, p + [y]) {
      var q := p + [y];
      forall i | 0 <= i < |q| - 1 ensures q[i] in nodes && q[i] !in view && q[i + 1] in Scopes(nodes[q[i]]) {
        if i < |p| - 1 {
          assert q[i] == p[i] && q[i + 1] == p[i + 1];
        }
      }
    }
  }

  /** Two climbs, the second starting where the first ends, make one. */
  lemma UpPathJoin(nodes: map<string, Record>, view: set<string>, p: seq<string>, q: seq<string>)
    requires Shaped(nodes) && UpPath(nodes, view, p) && UpPath(nodes, view, q) && p[|p| - 1] == q[0]
    ensures UpPath(nodes, view, p + q[1..])
    ensures (p + q[1..])[0] == p[0] && (p + q[1..])[|p + q[1..]| - 1] == q[|q| - 1]
  {
    var r := p + q[1..];
    forall i | 0 <= i < |r| - 1 ensures r[i] in nodes && r[i] !in view && r[i + 1] in Scopes(nodes[r[i]]) {
      if i < |p| - 1 {
        assert r[i] == p[i] && r[i + 1] == p[i + 1];
      } else {
        var j := i - |p| + 1;
        assert r[i] == q[j] && r[i + 1] == q[j + 1];
      }
    }
  }

  /** What a climb from `start` leaves to explore besides `explore0`: scopes
      of smaller depth, each with a climb from `start` to it. */
  ghost predicate Pending(nodes: map<string, Record>, view: set<string>, depth: map<string, nat>, start: string,
                          explore0: set<string>, explore: set<string>, trail: map<string, seq<string>>)
  {
    Shaped(nodes) && explore0 <= explore &&
    forall y :: y in explore && y !in explore0 ==>
      y in AllScopes(nodes) && Dep(depth, y) < Dep(depth, start) &&
      y in trail && Climbed(nodes, view, trail[y], start, y)
  }

  /** The invariant of the climb in ClimbUp, at node `s`. */
  ghost predicate Climbing(nodes: map<string, Record>, view: set<string>, depth: map<string, nat>, start: string,
                           explore0: set<string>, explore: set<string>, trail: map<string, seq<string>>,
                           path: seq<string>, s: string)
  {
    s in nodes && Dep(depth, s) <= Dep(depth, start) &&
    Pending(nodes, view, depth, start, explore0, explore, trail) &&
    Climbed(nodes, view, path, start, s)
  }

  /** One step of the climb keeps its invariant and lowers the depth. */
  lemma ClimbStep(nodes: map<string, Record>, view: set<string>, depth: map<string, nat>, start: string,
                  explore0: set<string>, explore: set<string>, trail: map<string, seq<string>>,
                  path: seq<string>, s: string, next: string)
    requires Ranked(nodes, depth)
    requires Climbing(nodes, view, depth, start, explore0, explore, trail, path, s)
    requires s !in view && next in Scopes(nodes[s])
    ensures Dep(depth, next) < Dep(depth, s)
    ensures Pending(nodes, view, depth, start, explore0, explore + (Scopes(nodes[s]) - {next}),
                    trail + map y | y in Scopes(nodes[s]) - {next} :: path + [y])
    ensures Climbed(nodes, view, path + [next], start, next)
    ensures next in nodes ==>
      Climbing(nodes, view, depth, start, explore0, explore + (Scopes(nodes[s]) - {next}),
               trail + map y | y in Scopes(nodes[s]) - {next} :: path + [y], path + [next], next)
  {
    var scope := Scopes(nodes[s]);
    UpPathStep(nodes, view, path, scope);
    var explore' := explore + (scope - {next});
    var trail' := trail + map y | y in scope - {next} :: path + [y];
    forall y | y in explore' && y !in explore0
      ensures y in AllScopes(nodes) && Dep(depth, y) < Dep(depth, start) &&
              y in trail' && Climbed(nodes, view, trail'[y], start, y)
    {
      if y in scope - {next} {
        assert trail'[y] == path + [y];
      } else {
        assert trail'[y] == trail[y];
      }
    }
  }

  /** The inner while of select_parent: go up from `start` until a node the
      view names or a root, popping one scope at each step and leaving the
      other scopes to explore later.  Popping from an empty scope set and
      reading a scope that is not a node are Python's KeyError. */
  method ClimbUp(nodes: map<string, Record>, view: set<string>, start: string, explore0: set<string>,
                 ghost depth: map<string, nat>)
    returns (r: Result<string>, explore: set<string>, ghost path: seq<string>,
             ghost trail: map<string, seq<string>>)
    requires Ranked(nodes, depth) && view <= nodes.Keys && start in nodes
    ensures Pending(nodes, view, depth, start, explore0, explore, trail)
    ensures r.Err? ==> r.error.Malformed?
    ensures r.Ok? ==>
      UpPath(nodes, view, path) && path[0] == start && path[|path| - 1] == r.value &&
      r.value in nodes && (r.value in view || nodes[r.value]["scope"].Null?)
  {
    var s := start;
    explore := explore0;
    path := [start];
    trail := map[];
    while s !in view && !nodes[s]["scope"].Null?
      invariant Climbing(nodes, view, depth, start, explore0, explore, trail, path, s)
      decreases Dep(depth, s)
    {
      var scope := nodes[s]["scope"].elems;
      if scope == {} {
        return Err(Malformed("pop from an empty scope set")), explore, path, trail;
      }
      var next :| next in scope;
      ClimbStep(nodes, view, depth, start, explore0, explore, trail, path, s, next);
      explore := explore + (scope - {next});
      trail := trail + map y | y in scope - {next} :: path + [y];
      path := path + [next];
      if next !in view && next !in nodes {
        return Err(Malformed("scope is not a node")), explore, path, trail;
      }
      s := next;
    }
    r := Ok(s);
  }

  // The explore loop ends because each pass replaces the popped node by
  // nodes of smaller depth.  Its measure reads the numbers of pending nodes
  // at each depth as the digits of a number in base |U| + 1, deepest first.

  ghost function Level(s: set<string>, depth: map<string, nat>, j: nat): set<string>
  {
    set y | y in s && Dep(depth, y) == j
  }

  function Pow(b: nat, k: nat): nat
  {
    if k == 0 then 1 else b * Pow(b, k - 1)
  }

  ghost function Weight(s: set<string>, depth: map<string, nat>, base: nat, n: nat): nat
  {
    if n == 0 then 0 else Weight(s, depth, base, n - 1) + |Level(s, depth, n - 1)| * Pow(base, n - 1)
  }

  ghost function MaxDep(depth: map<string, nat>, u: set<string>): (m: nat)
    ensures forall y :: y in u ==> Dep(depth, y) <= m
    decreases u
  {
    if u == {} then 0
    else
      var y :| y in u;
      var rest := MaxDep(depth, u - {y});
      if Dep(depth, y) > rest then Dep(depth, y) else rest
  }

  lemma {:induction false} SubsetCard(a: set<string>, b: set<string>)
    requires a <= b
    ensures |a| <= |b|
    decreases b
  {
    if a != {} {
      var x :| x in a;
      SubsetCard(a - {x}, b - {x});
    }
  }

  lemma {:induction false} MulLe(a: nat, b: nat, p: nat)
    requires a <= b
    ensures a * p <= b * p
  {
    if p > 0 {
      MulLe(a, b, p - 1);
      assert a * p == a * (p - 1) + a;
      assert b * p == b * (p - 1) + b;
    }
  }

  /** A number below `p` plus a digit below `b` times `p` is below `b * p`. */
  lemma DigitBelow(w: nat, c: nat, p: nat, b: nat)
    requires w < p && c < b
    ensures w + c * p < b * p
  {
    MulLe(c, b - 1, p);
    assert (b - 1) * p + p == b * p;
  }

  /** A smaller leading digit wins whatever follows it. */
  lemma DigitLess(w': nat, c': nat, w: nat, c: nat, p: nat)
    requires w' < p && c' < c
    ensures w' + c' * p < w + c * p
  {
    MulLe(c' + 1, c, p);
    assert (c' + 1) * p == c' * p + p;
  }

  lemma {:induction false} WeightBelow(s: set<string>, depth: map<string, nat>, base: nat, n: nat)
    requires forall j :: |Level(s, depth, j)| < base
    ensures Weight(s, depth, base, n) < Pow(base, n)
  {
    if n > 0 {
      WeightBelow(s, depth, base, n - 1);
      DigitBelow(Weight(s, depth, base, n - 1), |Level(s, depth, n - 1)|, Pow(base, n - 1), base);
    }
  }

  lemma {:induction false} WeightDrop(s: set<string>, s': set<string>, depth: map<string, nat>, base: nat, h: nat, n: nat)
    requires h < n
    requires forall j :: h < j < n ==> Level(s', depth, j) == Level(s, depth, j)
    requires |Level(s', depth, h)| < |Level(s, depth, h)|
    requires forall j :: |Level(s', depth, j)| < base
    ensures Weight(s', depth, base, n) < Weight(s, depth, base, n)
  {
    if n - 1 == h {
      WeightBelow(s', depth, base, h);
      DigitLess(Weight(s', depth, base, h), |Level(s', depth, h)|, Weight(s, depth, base, h), |Level(s, depth, h)|, Pow(base, h));
    } else {
      WeightDrop(s, s', depth, base, h, n - 1);
      assert Level(s', depth, n - 1) == Level(s, depth, n - 1);
    }
  }

  /** One pass of the explore loop: `x` leaves the pending set and what
      comes in is of smaller depth, so the measure goes down. */
  lemma WeightPop(s: set<string>, x: string, s': set<string>, depth: map<string, nat>,
                  u: set<string>, base: nat, top: nat)
    requires x in s && s <= u && s' <= u && base == |u| + 1
    requires forall y :: y in u ==> Dep(depth, y) < top
    requires s - {x} <= s'
    requires forall y :: y in s' && y !in s - {x} ==> Dep(depth, y) < Dep(depth, x)
    ensures Weight(s', depth, base, top) < Weight(s, depth, base, top)
  {
    var h := Dep(depth, x);
    forall j | h < j < top ensures Level(s', depth, j) == Level(s, depth, j) {
    }
    assert Level(s', depth, h) <= Level(s, depth, h) - {x};
    SubsetCard(Level(s', depth, h), Level(s, depth, h) - {x});
    forall j ensures |Level(s', depth, j)| < base {
      SubsetCard(Level(s', depth, j), u);
    }
    WeightDrop(s, s', depth, base, h, top);
  }

  /** An edge met at a requested node in direction `dir`, lifted from its far
      end along `path`. */
  datatype Lift = Lift(edge: string, dir: Dir, path: seq<string>)

  ghost predicate ValidLift(nodes: map<string, Record>, edges: map<string, Record>, view: set<string>, l: Lift)
  {
    Wf(nodes, edges) && l.edge in edges && End(edges[l.edge], l.dir) in view &&
    UpPath(nodes, view, l.path) && l.path[0] == End(edges[l.edge], Opposite(l.dir))
  }

  /** The edge with its `far` endpoint moved to `s` and its id regenerated
      from the new endpoints, as select_parent builds it. */
  function Retarget(e: Record, far: Dir, s: string): (r: Record)
    requires EdgeShaped(e)
    ensures EdgeShaped(r) && End(r, far) == s && End(r, Opposite(far)) == End(e, Opposite(far))
    ensures HasStrId(r) && IdOf(r) == Edge.GenerateId(End(r, Out), End(r, In))
    ensures r.Keys == e.Keys + {"id"}
    ensures forall k :: k in e && k != Key(far) && k != "id" ==> r[k] == e[k]
  {
    var moved := e[Key(far) := Str(s)];
    moved["id" := Str(Edge.GenerateId(moved["out"].s, moved["in"].s))]
  }

  /** Every added node is one the view names or a root, reached by climbing
      from the far end of an edge at a requested node. */
  ghost predicate AddedOk(nodes: map<string, Record>, edges: map<string, Record>, view: set<string>,
                          add: set<string>, via: map<string, Lift>)
  {
    Wf(nodes, edges) &&
    forall s :: s in add ==>
      s in nodes && (s in view || nodes[s]["scope"].Null?) &&
      s in via && ValidLift(nodes, edges, view, via[s]) && via[s].path[|via[s].path| - 1] == s
  }

  /** A kept edge is an unchanged edge joining a requested node to an added one. */
  ghost predicate KeptOk(nodes: map<string, Record>, edges: map<string, Record>, view: set<string>,
                         add: set<string>, sel: map<string, Record>)
  {
    Wf(nodes, edges) &&
    forall k :: k in sel ==>
      k in edges && sel[k] == edges[k] &&
      ((End(edges[k], In) in view && End(edges[k], Out) in add) ||
       (End(edges[k], Out) in view && End(edges[k], In) in add))
  }

  /** A synthesized edge is an edge at a requested node with its far end
      replaced by the strict ancestor that was added, filed under its
      regenerated id. */
  ghost predicate MadeOk(nodes: map<string, Record>, edges: map<string, Record>, view: set<string>,
                         add: set<string>, custom: map<string, Record>, via: map<string, Lift>,
                         made: map<string, string>)
  {
    AddedOk(nodes, edges, view, add, via) &&
    forall c :: c in custom ==>
      c in made && made[c] in add &&
      made[c] != via[made[c]].path[0] &&
      custom[c] == Retarget(edges[via[made[c]].edge], Opposite(via[made[c]].dir), made[c]) &&
      IdOf(custom[c]) == c
  }

  /** What select_parent has built so far; each added node accounts for at
      most one entry of either edge map. */
  ghost predicate ParentInv(nodes: map<string, Record>, edges: map<string, Record>, view: set<string>,
                            add: set<string>, sel: map<string, Record>, custom: map<string, Record>,
                            via: map<string, Lift>, made: map<string, string>)
  {
    AddedOk(nodes, edges, view, add, via) && KeptOk(nodes, edges, view, add, sel) &&
    MadeOk(nodes, edges, view, add, custom, via, made) &&
    |sel| + |custom| <= |add|
  }

  /** Some climb from `far` ends at an added node. */
  ghost predicate Covered(nodes: map<string, Record>, view: set<string>, far: string, add: set<string>)
  {
    Shaped(nodes) && (far in nodes ==> exists p :: UpPath(nodes, view, p) && p[0] == far && p[|p| - 1] in add)
  }

  lemma CoveredBy(nodes: map<string, Record>, view: set<string>, p: seq<string>, add: set<string>)
    requires UpPath(nodes, view, p) && p[|p| - 1] in add
    ensures Covered(nodes, view, p[0], add)
  {
  }

  lemma CoveredGrows(nodes: map<string, Record>, view: set<string>, far: string, add: set<string>, add': set<string>)
    requires Shaped(nodes) && add <= add' && Covered(nodes, view, far, add)
    ensures Covered(nodes, view, far, add')
  {
    if far in nodes {
      var p :| UpPath(nodes, view, p) && p[0] == far && p[|p| - 1] in add;
    }
  }

  lemma AddedStep(nodes: map<string, Record>, edges: map<string, Record>, view: set<string>,
                  add: set<string>, via: map<string, Lift>, s: string, l: Lift)
    requires Wf(nodes, edges) && AddedOk(nodes, edges, view, add, via)
    requires s in nodes && (s in view || nodes[s]["scope"].Null?)
    requires ValidLift(nodes, edges, view, l) && l.path[|l.path| - 1] == s
    ensures AddedOk(nodes, edges, view, add + {s}, via[s := l])
  {
  }

  lemma KeptStep(nodes: map<string, Record>, edges: map<string, Record>, view: set<string>,
                 add: set<string>, sel: map<string, Record>, s: string, l: Lift, keep: bool)
    requires Wf(nodes, edges) && KeptOk(nodes, edges, view, add, sel)
    requires ValidLift(nodes, edges, view, l) && (keep ==> s == l.path[0])
    ensures KeptOk(nodes, edges, view, add + {s}, if keep then sel[l.edge := edges[l.edge]] else sel)
  {
    if keep {
      var e := l.edge;
      assert End(edges[e], l.dir) in view && End(edges[e], Opposite(l.dir)) == s;
      assert l.dir == In || l.dir == Out;
    }
  }

  lemma MadeKeepAt(nodes: map<string, Record>, edges: map<string, Record>, view: set<string>,
                   add: set<string>, custom: map<string, Record>, via: map<string, Lift>,
                   made: map<string, string>, s: string, l: Lift, c: string)
    requires MadeOk(nodes, edges, view, add, custom, via, made)
    requires s !in add && c in custom
    ensures c in made && made[c] in add + {s} && made[c] != via[s := l][made[c]].path[0] &&
      custom[c] == Retarget(edges[via[s := l][made[c]].edge], Opposite(via[s := l][made[c]].dir), made[c]) &&
      IdOf(custom[c]) == c
  {
    assert made[c] in add && via[s := l][made[c]] == via[made[c]];
  }

  /** An added node leaves the synthesized edges as they were. */
  lemma MadeKeep(nodes: map<string, Record>, edges: map<string, Record>, view: set<string>,
                 add: set<string>, custom: map<string, Record>, via: map<string, Lift>,
                 made: map<string, string>, s: string, l: Lift)
    requires Wf(nodes, edges) && AddedOk(nodes, edges, view, add, via)
    requires AddedOk(nodes, edges, view, add + {s}, via[s := l])
    requires MadeOk(nodes, edges, view, add, custom, via, made)
    requires s !in add
    ensures MadeOk(nodes, edges, view, add + {s}, custom, via[s := l], made)
  {
    var via' := via[s := l];
    forall c | c in custom
      ensures c in made && made[c] in add + {s} && made[c] != via'[made[c]].path[0] &&
        custom[c] == Retarget(edges[via'[made[c]].edge], Opposite(via'[made[c]].dir), made[c]) &&
        IdOf(custom[c]) == c
    {
      MadeKeepAt(nodes, edges, view, add, custom, via, made, s, l, c);
    }
  }

  /** The edge synthesized for a newly added strict ancestor. */
  lemma MadeNew(nodes: map<string, Record>, edges: map<string, Record>, view: set<string>,
                add: set<string>, custom: map<string, Record>, via: map<string, Lift>,
                made: map<string, string>, s: string, l: Lift, ne: Record)
    requires Wf(nodes, edges) && AddedOk(nodes, edges, view, add + {s}, via)
    requires MadeOk(nodes, edges, view, add + {s}, custom, via, made)
    requires s in via && via[s] == l && l.edge in edges && s != l.path[0]
    requires ne == Retarget(edges[l.edge], Opposite(l.dir), s)
    ensures MadeOk(nodes, edges, view, add + {s}, custom[IdOf(ne) := ne], via, made[IdOf(ne) := s])
  {
    var custom', made' := custom[IdOf(ne) := ne], made[IdOf(ne) := s];
    forall c | c in custom'
      ensures c in made' && made'[c] in add + {s} && made'[c] != via[made'[c]].path[0] &&
        custom'[c] == Retarget(edges[via[made'[c]].edge], Opposite(via[made'[c]].dir), made'[c]) &&
        IdOf(custom'[c]) == c
    {
      if c == IdOf(ne) {
        assert made'[c] == s && custom'[c] == ne;
      } else {
        assert custom'[c] == custom[c] && made'[c] == made[c];
      }
    }
  }

  lemma CountStep(add: set<string>, sel: map<string, Record>, custom: map<string, Record>,
                  s: string, k: string, r: Record, keep: bool)
    requires s !in add && |sel| + |custom| <= |add|
    ensures keep ==> |sel[k := r]| + |custom| <= |add + {s}|
    ensures !keep ==> |sel| + |custom[k := r]| <= |add + {s}|
  {
    assert |add + {s}| == |add| + 1;
    if keep {
      assert sel[k := r].Keys == sel.Keys + {k};
    } else {
      assert custom[k := r].Keys == custom.Keys + {k};
    }
  }

  /** The tail of a pass that reaches a node `s` not added yet: add it, and
      keep the edge when `s` is its far end, or else synthesize the edge
      lifted to `s`. */
  method Admit(nodes: map<string, Record>, edges: map<string, Record>, view: set<string>,
               e: string, d: Dir, s: string, ghost lift: Lift,
               add0: set<string>, sel0: map<string, Record>, custom0: map<string, Record>,
               ghost via0: map<string, Lift>, ghost made0: map<string, string>)
    returns (add: set<string>, sel: map<string, Record>, custom: map<string, Record>,
             ghost via: map<string, Lift>, ghost made: map<string, string>)
    requires Wf(nodes, edges) && ParentInv(nodes, edges, view, add0, sel0, custom0, via0, made0)
    requires s !in add0 && s in nodes && (s in view || nodes[s]["scope"].Null?)
    requires lift.edge == e && lift.dir == d
    requires ValidLift(nodes, edges, view, lift) && lift.path[|lift.path| - 1] == s
    ensures add == add0 + {s} && ParentInv(nodes, edges, view, add, sel, custom, via, made)
  {
    add, sel, custom, via, made := add0, sel0, custom0, via0, made0;
    var far := End(edges[e], Opposite(d));
    KeptStep(nodes, edges, view, add, sel, s, lift, s == far);
    AddedStep(nodes, edges, view, add, via, s, lift);
    MadeKeep(nodes, edges, view, add, custom, via, made, s, lift);
    if s == far {
      CountStep(add, sel, custom, s, e, edges[e], true);
      sel := sel[e := edges[e]];
    } else {
      var ne := Retarget(edges[e], Opposite(d), s);
      CountStep(add, sel, custom, s, IdOf(ne), ne, false);
      MadeNew(nodes, edges, view, add, custom, via[s := lift], made, s, lift, ne);
      custom := custom[IdOf(ne) := ne];
      made := made[IdOf(ne) := s];
    }
    add, via := add + {s}, via[s := lift];
  }

  /** One pass of the explore loop after popping `x`, a node reached by the
      climb `lead` from the far end of `e`: climb on, and unless the node
      reached is already added, add it and keep the edge (the node is the
      far end itself) or synthesize the lifted edge. */
  method Visit(nodes: map<string, Record>, edges: map<string, Record>, view: set<string>,
               e: string, d: Dir, ghost depth: map<string, nat>, x: string, ghost lead: seq<string>,
               explore0: set<string>,
               add0: set<string>, sel0: map<string, Record>, custom0: map<string, Record>,
               ghost via0: map<string, Lift>, ghost made0: map<string, string>)
    returns (failure: Option<Error>, explore: set<string>, ghost trail: map<string, seq<string>>,
             add: set<string>, sel: map<string, Record>, custom: map<string, Record>,
             ghost via: map<string, Lift>, ghost made: map<string, string>)
    requires Wf(nodes, edges) && Ranked(nodes, depth) && view <= nodes.Keys
    requires e in edges && End(edges[e], d) in view && x in nodes
    requires Climbed(nodes, view, lead, End(edges[e], Opposite(d)), x)
    requires ParentInv(nodes, edges, view, add0, sel0, custom0, via0, made0)
    ensures failure.Some? ==> failure.value.Malformed?
    ensures Pending(nodes, view, depth, x, explore0, explore, trail)
    ensures failure.None? ==>
      add0 <= add && ParentInv(nodes, edges, view, add, sel, custom, via, made) &&
      Covered(nodes, view, lead[0], add)
  {
    add, sel, custom, via, made := add0, sel0, custom0, via0, made0;
    var climbed;
    ghost var path;
    climbed, explore, path, trail := ClimbUp(nodes, view, x, explore0, depth);
    if climbed.Err? {
      return Some(climbed.error), explore, trail, add, sel, custom, via, made;
    }
    var s := climbed.value;
    UpPathJoin(nodes, view, lead, path);
    ghost var full := lead + path[1..];
    if s in add {
      CoveredBy(nodes, view, full, add);
      return None, explore, trail, add, sel, custom, via, made;
    }
    ghost var lift := Lift(e, d, full);
    add, sel, custom, via, made := Admit(nodes, edges, view, e, d, s, lift, add, sel, custom, via, made);
    CoveredBy(nodes, view, full, add);
    failure := None;
  }

  /** The explore loop of select_parent for the edge `e` met at a requested
      node in direction `d`. */
  method ExploreFrom(nodes: map<string, Record>, edges: map<string, Record>, view: set<string>,
                     e: string, d: Dir, ghost depth: map<string, nat>,
                     add0: set<string>, sel0: map<string, Record>, custom0: map<string, Record>,
                     ghost via0: map<string, Lift>, ghost made0: map<string, string>)
    returns (failure: Option<Error>, add: set<string>, sel: map<string, Record>, custom: map<string, Record>,
             ghost via: map<string, Lift>, ghost made: map<string, string>)
    requires Wf(nodes, edges) && Ranked(nodes, depth) && view <= nodes.Keys
    requires e in edges && End(edges[e], d) in view
    requires ParentInv(nodes, edges, view, add0, sel0, custom0, via0, made0)
    ensures failure.Some? ==> failure.value.Malformed?
    ensures failure.None? ==>
      add0 <= add && ParentInv(nodes, edges, view, add, sel, custom, via, made) &&
      Covered(nodes, view, End(edges[e], Opposite(d)), add)
  {
    add, sel, custom, via, made := add0, sel0, custom0, via0, made0;
    var far := End(edges[e], Opposite(d));
    var explore := {far};
    ghost var leads: map<string, seq<string>> := map[far := [far]];
    ClimbedSelf(nodes, view, far);
    ghost var u := {far} + AllScopes(nodes);
    ghost var base := |u| + 1;
    ghost var top := MaxDep(depth, u) + 1;
    while explore != {}
      invariant explore <= u
      invariant Leads(nodes, view, far, explore, leads)
      invariant add0 <= add && ParentInv(nodes, edges, view, add, sel, custom, via, made)
      invariant far in explore || Covered(nodes, view, far, add)
      decreases Weight(explore, depth, base, top)
    {
      failure, explore, leads, add, sel, custom, via, made :=
        ExplorePass(nodes, edges, view, e, d, depth, explore, leads, u, base, top, add, sel, custom, via, made);
      if failure.Some? {
        return;
      }
    }
    return None, add, sel, custom, via, made;
  }

  /** One pass of the explore loop: pop a node and, when it is a node,
      visit it.  The pass keeps the loop's invariants and lowers its
      measure. */
  method ExplorePass(nodes: map<string, Record>, edges: map<string, Record>, view: set<string>,
                     e: string, d: Dir, ghost depth: map<string, nat>,
                     explore0: set<string>, ghost leads0: map<string, seq<string>>,
                     ghost u: set<string>, ghost base: nat, ghost top: nat,
                     add0: set<string>, sel0: map<string, Record>, custom0: map<string, Record>,
                     ghost via0: map<string, Lift>, ghost made0: map<string, string>)
    returns (failure: Option<Error>, explore: set<string>, ghost leads: map<string, seq<string>>,
             add: set<string>, sel: map<string, Record>, custom: map<string, Record>,
             ghost via: map<string, Lift>, ghost made: map<string, string>)
    requires Wf(nodes, edges) && Ranked(nodes, depth) && view <= nodes.Keys
    requires e in edges && End(edges[e], d) in view
    requires u == {End(edges[e], Opposite(d))} + AllScopes(nodes)
    requires base == |u| + 1 && top == MaxDep(depth, u) + 1
    requires explore0 != {} && explore0 <= u
    requires Leads(nodes, view, End(edges[e], Opposite(d)), explore0, leads0)
    requires ParentInv(nodes, edges, view, add0, sel0, custom0, via0, made0)
    requires End(edges[e], Opposite(d)) in explore0 || Covered(nodes, view, End(edges[e], Opposite(d)), add0)
    ensures failure.Some? ==> failure.value.Malformed?
    ensures failure.None? ==>
      explore <= u && Leads(nodes, view, End(edges[e], Opposite(d)), explore, leads) &&
      add0 <= add && ParentInv(nodes, edges, view, add, sel, custom, via, made) &&
      (End(edges[e], Opposite(d)) in explore || Covered(nodes, view, End(edges[e], Opposite(d)), add)) &&
      Weight(explore, depth, base, top) < Weight(explore0, depth, base, top)
  {
    add, sel, custom, via, made := add0, sel0, custom0, via0, made0;
    var far := End(edges[e], Opposite(d));
    var x :| x in explore0;
    explore := explore0 - {x};
    leads := leads0;
    if x !in nodes {
      WeightPop(explore0, x, explore, depth, u, base, top);
      assert x == far ==> Covered(nodes, view, far, add);
      return None, explore, leads, add, sel, custom, via, made;
    }
    failure, explore, leads, add, sel, custom, via, made :=
      ExploreNode(nodes, edges, view, e, d, depth, explore0, leads0, u, base, top, x, add, sel, custom, via, made);
  }

  /** The pass of the explore loop that pops `x`, a node: visit it. */
  method ExploreNode(nodes: map<string, Record>, edges: map<string, Record>, view: set<string>,
                     e: string, d: Dir, ghost depth: map<string, nat>,
                     explore0: set<string>, ghost leads0: map<string, seq<string>>,
                     ghost u: set<string>, ghost base: nat, ghost top: nat, x: string,
                     add0: set<string>, sel0: map<string, Record>, custom0: map<string, Record>,
                     ghost via0: map<string, Lift>, ghost made0: map<string, string>)
    returns (failure: Option<Error>, explore: set<string>, ghost leads: map<string, seq<string>>,
             add: set<string>, sel: map<string, Record>, custom: map<string, Record>,
             ghost via: map<string, Lift>, ghost made: map<string, string>)
    requires Wf(nodes, edges) && Ranked(nodes, depth) && view <= nodes.Keys
    requires e in edges && End(edges[e], d) in view
    requires u == {End(edges[e], Opposite(d))} + AllScopes(nodes)
    requires base == |u| + 1 && top == MaxDep(depth, u) + 1
    requires x in explore0 && x in nodes && explore0 <= u
    requires Leads(nodes, view, End(edges[e], Opposite(d)), explore0, leads0)
    requires ParentInv(nodes, edges, view, add0, sel0, custom0, via0, made0)
    ensures failure.Some? ==> failure.value.Malformed?
    ensures failure.None? ==>
      explore <= u && Leads(nodes, view, End(edges[e], Opposite(d)), explore, leads) &&
      add0 <= add && ParentInv(nodes, edges, view, add, sel, custom, via, made) &&
      Covered(nodes, view, End(edges[e], Opposite(d)), add) &&
      Weight(explore, depth, base, top) < Weight(explore0, depth, base, top)
  {
    var far := End(edges[e], Opposite(d));
    ghost var lead := leads0[x];
    assert Climbed(nodes, view, lead, far, x);
    ghost var trail;
    failure, explore, trail, add, sel, custom, via, made :=
      Visit(nodes, edges, view, e, d, depth, x, lead, explore0 - {x}, add0, sel0, custom0, via0, made0);
    leads := leads0;
    if failure.Some? {
      return;
    }
    PendingStep(nodes, view, depth, far, x, explore0, explore, trail, leads0, lead, u, base, top);
    leads := Extend(leads0, lead, trail, explore - (explore0 - {x}));
  }

  /** Every node left to explore has a climb from `far` to it. */
  ghost predicate Leads(nodes: map<string, Record>, view: set<string>, far: string, explore: set<string>,
                        leads: map<string, seq<string>>)
  {
    forall y :: y in explore ==> y in leads && Climbed(nodes, view, leads[y], far, y)
  }

  lemma ClimbedSelf(nodes: map<string, Record>, view: set<string>, x: string)
    requires Shaped(nodes)
    ensures Climbed(nodes, view, [x], x, x)
  {
  }

  /** After a pass from `x`, what is left to explore stays within the
      universe, the measure goes down, and every pending node still has a
      climb from the far end. */
  lemma PendingStep(nodes: map<string, Record>, view: set<string>, depth: map<string, nat>, far: string,
                    x: string, before: set<string>, explore: set<string>, trail: map<string, seq<string>>,
                    leads: map<string, seq<string>>, lead: seq<string>, u: set<string>, base: nat, top: nat)
    requires Shaped(nodes) && x in before && before <= u && u == {far} + AllScopes(nodes)
    requires base == |u| + 1 && top == MaxDep(depth, u) + 1
    requires Pending(nodes, view, depth, x, before - {x}, explore, trail)
    requires Leads(nodes, view, far, before, leads)
    requires Climbed(nodes, view, lead, far, x)
    ensures explore <= u
    ensures Weight(explore, depth, base, top) < Weight(before, depth, base, top)
    ensures Leads(nodes, view, far, explore, Extend(leads, lead, trail, explore - (before - {x})))
  {
    WeightPop(before, x, explore, depth, u, base, top);
    LeadsStep(nodes, view, before - {x}, explore - (before - {x}), leads, lead, trail, far);
    assert (before - {x}) + (explore - (before - {x})) == explore;
  }

  /** The climbs to the nodes a pass left to explore: the climb to the
      popped node followed by the pass's own climb to each. */
  ghost function Extend(leads: map<string, seq<string>>, lead: seq<string>, trail: map<string, seq<string>>,
                        born: set<string>): map<string, seq<string>>
  {
    leads + map y | y in born && y in trail :: lead + (if |trail[y]| == 0 then [] else trail[y][1..])
  }

  lemma LeadsStep(nodes: map<string, Record>, view: set<string>, rest: set<string>, born: set<string>,
                  leads: map<string, seq<string>>, lead: seq<string>, trail: map<string, seq<string>>, far: string)
    requires Shaped(nodes)
    requires forall y :: y in rest ==>
      y in leads && Climbed(nodes, view, leads[y], far, y)
    requires UpPath(nodes, view, lead) && lead[0] == far
    requires forall y :: y in born ==>
      y in trail && UpPath(nodes, view, trail[y]) && trail[y][0] == lead[|lead| - 1] && trail[y][|trail[y]| - 1] == y
    ensures var leads' := Extend(leads, lead, trail, born);
      forall y :: y in rest + born ==>
        y in leads' && Climbed(nodes, view, leads'[y], far, y)
  {
    forall y | y in born ensures UpPath(nodes, view, lead + trail[y][1..]) &&
      (lead + trail[y][1..])[0] == far && (lead + trail[y][1..])[|lead + trail[y][1..]| - 1] == y
    {
      UpPathJoin(nodes, view, lead, trail[y]);
    }
  }

  /** The far end of every edge of `ks` met in direction `d` has a climb to
      an added node. */
  ghost predicate CoveredFrom(nodes: map<string, Record>, edges: map<string, Record>, view: set<string>,
                              d: Dir, ks: set<string>, add: set<string>)
  {
    Wf(nodes, edges) &&
    forall e :: e in ks ==> e in edges && Covered(nodes, view, End(edges[e], Opposite(d)), add)
  }

  lemma CoveredFromGrows(nodes: map<string, Record>, edges: map<string, Record>, view: set<string>,
                         d: Dir, ks: set<string>, add: set<string>, add': set<string>)
    requires CoveredFrom(nodes, edges, view, d, ks, add) && add <= add'
    ensures CoveredFrom(nodes, edges, view, d, ks, add')
  {
    forall e | e in ks ensures Covered(nodes, view, End(edges[e], Opposite(d)), add') {
      CoveredGrows(nodes, view, End(edges[e], Opposite(d)), add, add');
    }
  }

  /** The `d` set of node `n` holds edges whose `d` endpoint is `n`. */
  ghost predicate Incident(nodes: map<string, Record>, edges: map<string, Record>, n: string, d: Dir)
  {
    Wf(nodes, edges) && n in nodes &&
    forall e :: e in Adj(nodes[n], d) ==> e in edges && End(edges[e], d) == n
  }

  lemma GraphIncident(nodes: map<string, Record>, edges: map<string, Record>, n: string, d: Dir)
    requires Graph(nodes, edges) && n in nodes
    ensures Incident(nodes, edges, n, d)
  {
  }

  /** The loop of select_parent over the edges of requested node `n` in
      direction `d`. */
  method ParentEdges(nodes: map<string, Record>, edges: map<string, Record>, view: set<string>,
                     n: string, d: Dir, ghost depth: map<string, nat>,
                     add0: set<string>, sel0: map<string, Record>, custom0: map<string, Record>,
                     ghost via0: map<string, Lift>, ghost made0: map<string, string>)
    returns (failure: Option<Error>, add: set<string>, sel: map<string, Record>, custom: map<string, Record>,
             ghost via: map<string, Lift>, ghost made: map<string, string>)
    requires Incident(nodes, edges, n, d) && Ranked(nodes, depth) && view <= nodes.Keys && n in view
    requires ParentInv(nodes, edges, view, add0, sel0, custom0, via0, made0)
    ensures failure.Some? ==> failure.value.Malformed?
    ensures failure.None? ==>
      add0 <= add && ParentInv(nodes, edges, view, add, sel, custom, via, made) &&
      CoveredFrom(nodes, edges, view, d, Adj(nodes[n], d), add)
  {
    add, sel, custom, via, made := add0, sel0, custom0, via0, made0;
    var todo := Adj(nodes[n], d);
    ghost var done: set<string> := {};
    while todo != {}
      invariant Adj(nodes[n], d) <= done + todo
      invariant add0 <= add && ParentInv(nodes, edges, view, add, sel, custom, via, made)
      invariant CoveredFrom(nodes, edges, view, d, done, add)
      decreases todo
    {
      var e :| e in todo;
      todo := todo - {e};
      assert e in edges && End(edges[e], d) == n;
      ghost var prev := add;
      failure, add, sel, custom, via, made := ExploreFrom(nodes, edges, view, e, d, depth, add, sel, custom, via, made);
      if failure.Some? {
        return;
      }
      CoveredFromAdd(nodes, edges, view, d, done, e, prev, add);
      done := done + {e};
    }
    CoveredFromSub(nodes, edges, view, d, Adj(nodes[n], d), done, add);
    failure := None;
  }

  lemma CoveredFromAdd(nodes: map<string, Record>, edges: map<string, Record>, view: set<string>,
                       d: Dir, ks: set<string>, e: string, add: set<string>, add': set<string>)
    requires CoveredFrom(nodes, edges, view, d, ks, add) && add <= add'
    requires e in edges && Covered(nodes, view, End(edges[e], Opposite(d)), add')
    ensures CoveredFrom(nodes, edges, view, d, ks + {e}, add')
  {
    CoveredFromGrows(nodes, edges, view, d, ks, add, add');
  }

  lemma CoveredFromSub(nodes: map<string, Record>, edges: map<string, Record>, view: set<string>,
                       d: Dir, ks: set<string>, ks': set<string>, add: set<string>)
    requires CoveredFrom(nodes, edges, view, d, ks', add) && ks <= ks'
    ensures CoveredFrom(nodes, edges, view, d, ks, add)
  {
  }

  /** Both directions of requested node `n`, `in` first. */
  method ParentNode(nodes: map<string, Record>, edges: map<string, Record>, view: set<string>,
                    n: string, ghost depth: map<string, nat>,
                    add0: set<string>, sel0: map<string, Record>, custom0: map<string, Record>,
                    ghost via0: map<string, Lift>, ghost made0: map<string, string>)
    returns (failure: Option<Error>, add: set<string>, sel: map<string, Record>, custom: map<string, Record>,
             ghost via: map<string, Lift>, ghost made: map<string, string>)
    requires Graph(nodes, edges) && Ranked(nodes, depth) && view <= nodes.Keys && n in view
    requires ParentInv(nodes, edges, view, add0, sel0, custom0, via0, made0)
    ensures failure.Some? ==> failure.value.Malformed?
    ensures failure.None? ==>
      add0 <= add && ParentInv(nodes, edges, view, add, sel, custom, via, made) &&
      AllDone(nodes, edges, view, {n}, add)
  {
    GraphIncident(nodes, edges, n, In);
    GraphIncident(nodes, edges, n, Out);
    failure, add, sel, custom, via, made := ParentEdges(nodes, edges, view, n, In, depth, add0, sel0, custom0, via0, made0);
    if failure.Some? {
      return;
    }
    ghost var mid := add;
    failure, add, sel, custom, via, made := ParentEdges(nodes, edges, view, n, Out, depth, add, sel, custom, via, made);
    if failure.Some? {
      return;
    }
    CoveredFromGrows(nodes, edges, view, In, Adj(nodes[n], In), mid, add);
  }

  /** What select_parent produces: the unchanged edges, the synthesized
      edges and the nodes to add. */
  datatype Picked = Picked(sel: map<string, Record>, custom: map<string, Record>, add: set<string>)

  /** Both directions of every requested node are done. */
  ghost predicate AllDone(nodes: map<string, Record>, edges: map<string, Record>, view: set<string>,
                          done: set<string>, add: set<string>)
  {
    Wf(nodes, edges) &&
    forall n :: n in done ==>
      n in nodes &&
      CoveredFrom(nodes, edges, view, In, Adj(nodes[n], In), add) &&
      CoveredFrom(nodes, edges, view, Out, Adj(nodes[n], Out), add)
  }

  lemma AllDoneGrows(nodes: map<string, Record>, edges: map<string, Record>, view: set<string>,
                     done: set<string>, add: set<string>, add': set<string>)
    requires AllDone(nodes, edges, view, done, add) && add <= add'
    ensures AllDone(nodes, edges, view, done, add')
  {
    forall n | n in done
      ensures n in nodes && CoveredFrom(nodes, edges, view, In, Adj(nodes[n], In), add') &&
        CoveredFrom(nodes, edges, view, Out, Adj(nodes[n], Out), add')
    {
      CoveredFromGrows(nodes, edges, view, In, Adj(nodes[n], In), add, add');
      CoveredFromGrows(nodes, edges, view, Out, Adj(nodes[n], Out), add, add');
    }
  }

  /** Finishing node `n` moves it out of the nodes still to do. */
  lemma AllDoneStep(nodes: map<string, Record>, edges: map<string, Record>, view: set<string>,
                    todo: set<string>, n: string, add0: set<string>, add: set<string>)
    requires todo <= view && n in todo && add0 <= add
    requires AllDone(nodes, edges, view, view - todo, add0) && AllDone(nodes, edges, view, {n}, add)
    ensures todo - {n} <= view && AllDone(nodes, edges, view, view - (todo - {n}), add)
  {
    AllDoneGrows(nodes, edges, view, view - todo, add0, add);
    assert view - (todo - {n}) == (view - todo) + {n};
  }

  /** Once every requested node is done, the far end of every edge at a
      requested node climbs to an added node. */
  lemma AllDoneCovers(nodes: map<string, Record>, edges: map<string, Record>, view: set<string>, add: set<string>)
    requires Graph(nodes, edges) && view <= nodes.Keys && AllDone(nodes, edges, view, view, add)
    ensures forall e, d: Dir :: e in edges && End(edges[e], d) in view ==>
      Covered(nodes, view, End(edges[e], Opposite(d)), add)
  {
    forall e, d: Dir | e in edges && End(edges[e], d) in view
      ensures Covered(nodes, view, End(edges[e], Opposite(d)), add)
    {
      var n := End(edges[e], d);
      assert e in Adj(nodes[n], d);
      assert CoveredFrom(nodes, edges, view, d, Adj(nodes[n], d), add) by {
        assert d == In || d == Out;
      }
    }
  }

  /** select_parent.  Every added node is a requested node or a root reached
      by climbing scopes from the far end of an edge at a requested node;
      every kept edge is an unchanged edge joining a requested node to an
      added one; every synthesized edge is such an edge with its far end
      lifted to the strict ancestor added, under its regenerated id; each
      added node accounts for at most one edge; and from the far end of
      every edge at a requested node some climb ends at an added node.
      Only a missing or empty scope set fails. */
  method SelectParent(view: set<string>, nodes: map<string, Record>, edges: map<string, Record>,
                      ghost depth: map<string, nat>)
    returns (r: Result<Picked>, ghost via: map<string, Lift>, ghost made: map<string, string>)
    requires Graph(nodes, edges) && Ranked(nodes, depth) && view <= nodes.Keys
    ensures r.Err? ==> r.error.Malformed?
    ensures r.Ok? ==> ParentInv(nodes, edges, view, r.value.add, r.value.sel, r.value.custom, via, made)
    ensures r.Ok? ==> forall e, d: Dir :: e in edges && End(edges[e], d) in view ==>
      Covered(nodes, view, End(edges[e], Opposite(d)), r.value.add)
  {
    var add: set<string> := {};
    var sel: map<string, Record> := map[];
    var custom: map<string, Record> := map[];
    via, made := map[], map[];
    var todo := view;
    while todo != {}
      invariant todo <= view && AllDone(nodes, edges, view, view - todo, add)
      invariant ParentInv(nodes, edges, view, add, sel, custom, via, made)
      decreases todo
    {
      var n :| n in todo;
      ghost var prev := add;
      var failure;
      failure, add, sel, custom, via, made := ParentNode(nodes, edges, view, n, depth, add, sel, custom, via, made);
      if failure.Some? {
        return Err(failure.value), via, made;
      }
      AllDoneStep(nodes, edges, view, todo, n, prev, add);
      todo := todo - {n};
    }
    AllDoneCovers(nodes, edges, view, add);
    r := Ok(Picked(sel, custom, add));
  }
}
