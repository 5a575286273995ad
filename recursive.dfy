/** select_recursive: a breadth-first walk along one edge direction from the
    requested nodes, followed by a pass that pulls in the scopes of every
    node the walk appended (src/hiearch/hh_view.py, select_recursive). */
module Recursive {
  import opened Values
  import opened Select

  /** One adjacency direction is exact: the `dir` set of a node holds
      exactly the edges whose `dir` endpoint is that node. */
  ghost predicate Exact(nodes: map<string, Record>, edges: map<string, Record>, dir: Dir)
  {
    Wf(nodes, edges) &&
    forall n, e :: n in nodes ==> (e in Adj(nodes[n], dir) <==> e in edges && End(edges[e], dir) == n)
  }

  lemma GraphExact(nodes: map<string, Record>, edges: map<string, Record>, dir: Dir)
    requires Graph(nodes, edges)
    ensures Exact(nodes, edges, dir)
  {
  }

  /** The edges the walk takes from the nodes of `from`: met in direction
      `dir`, with the connected node among the nodes. */
  ghost function Spreads(nodes: map<string, Record>, edges: map<string, Record>, dir: Dir, from: set<string>): set<string>
    requires Wf(nodes, edges)
  {
    set e | e in edges && End(edges[e], dir) in from && End(edges[e], Opposite(dir)) in nodes
  }

  /** `list` is `list0` with nodes appended, each a node not in `add0` and
      none twice, and `add` is `add0` together with them. */
  ghost predicate Appended(nodes: map<string, Record>, list0: seq<string>, list: seq<string>,
                           add0: set<string>, add: set<string>)
  {
    |list0| <= |list| && list[..|list0|] == list0 &&
    add == add0 + Elems(list[|list0|..]) &&
    (forall k :: |list0| <= k < |list| ==> list[k] in nodes && list[k] !in add0) &&
    (forall j, k :: |list0| <= j < k < |list| ==> list[j] != list[k])
  }

  lemma AppendedNone(nodes: map<string, Record>, list: seq<string>, add: set<string>)
    ensures Appended(nodes, list, list, add, add)
  {
    assert list[|list|..] == [];
  }

  lemma AppendedOne(nodes: map<string, Record>, list0: seq<string>, list: seq<string>,
                    add0: set<string>, add: set<string>, m: string)
    requires Appended(nodes, list0, list, add0, add) && m in nodes && m !in add
    ensures Appended(nodes, list0, list + [m], add0, add + {m})
  {
    var list' := list + [m];
    assert list'[..|list0|] == list0;
    assert list'[|list0|..] == list[|list0|..] + [m];
    forall j, k | |list0| <= j < k < |list'| ensures list'[j] != list'[k] {
      if k == |list| {
        assert list[j] in Elems(list[|list0|..]) by { assert list[|list0|..][j - |list0|] == list[j]; }
      }
    }
  }

  lemma {:induction false} AppendedTrans(nodes: map<string, Record>, a: seq<string>, b: seq<string>, c: seq<string>,
                                         x: set<string>, y: set<string>, z: set<string>)
    requires Appended(nodes, a, b, x, y) && Appended(nodes, b, c, y, z)
    ensures Appended(nodes, a, c, x, z)
  {
    assert c[..|a|] == b[..|a|];
    assert c[|a|..] == b[|a|..] + c[|b|..] by {
      assert c[..|b|] == b;
    }
    forall j, k | |a| <= j < k < |c| ensures c[j] != c[k] {
      if j < |b| && |b| <= k {
        assert c[j] == b[j] && b[j] in Elems(b[|a|..]) by { assert c[..|b|] == b; assert b[|a|..][j - |a|] == b[j]; }
      } else if k < |b| {
        assert c[..|b|] == b;
        assert c[j] == b[j] && c[k] == b[k];
      }
    }
    forall k | |a| <= k < |c| ensures c[k] in nodes && c[k] !in x {
      if k < |b| { assert c[..|b|] == b; assert c[k] == b[k]; }
    }
  }

  /** A list without repeats drawn from a set is no longer than the set. */
  lemma ListBound(list: seq<string>, s: set<string>)
    requires !HasDuplicates(list) && Elems(list) <= s
    ensures |list| <= |s|
  {
    DistinctCard(list);
    SubsetCard(Elems(list), s);
  }

  /** Appending nodes not added yet to a list whose members are all added
      keeps it free of repeats. */
  lemma NoRepeats(nodes: map<string, Record>, list0: seq<string>, list: seq<string>, add0: set<string>, add: set<string>)
    requires !HasDuplicates(list0) && Elems(list0) <= add0 && Appended(nodes, list0, list, add0, add)
    ensures !HasDuplicates(list) && Elems(list) <= add
  {
    forall i, j | 0 <= i < j < |list| ensures list[i] != list[j] {
      if j < |list0| {
        assert list[i] == list0[i] && list[j] == list0[j];
      } else if i < |list0| {
        assert list[i] == list0[i] && list0[i] in Elems(list0);
      }
    }
    forall x | x in Elems(list) ensures x in add {
      var k :| 0 <= k < |list| && list[k] == x;
      if k < |list0| {
        assert list0[k] == x;
      } else {
        assert list[|list0|..][k - |list0|] == x;
      }
    }
  }

  // ---------------------------------------------------------------------
  // The walk

  /** The state of the inner for of the walk over the edges of `n` once
      the edges of `done` are taken. */
  ghost predicate FanInv(nodes: map<string, Record>, edges: map<string, Record>, dir: Dir, n: string,
                         list0: seq<string>, add0: set<string>, sel0: map<string, Record>, why0: map<string, string>,
                         done: set<string>, list: seq<string>, add: set<string>, sel: map<string, Record>,
                         why: map<string, string>)
  {
    Exact(nodes, edges, dir) && n in nodes && done <= Adj(nodes[n], dir) &&
    Copies(sel, edges) && sel0.Keys <= sel.Keys &&
    (forall e :: e in sel ==> e in sel0 || (e in done && End(edges[e], Opposite(dir)) in nodes)) &&
    (forall e :: e in done && End(edges[e], Opposite(dir)) in nodes ==> e in sel && End(edges[e], Opposite(dir)) in add) &&
    Appended(nodes, list0, list, add0, add) &&
    (forall k :: |list0| <= k < |list| ==>
      list[k] in why && why[list[k]] in Adj(nodes[n], dir) && End(edges[why[list[k]]], Opposite(dir)) == list[k]) &&
    (forall m :: m in why0 && m in add0 ==> m in why && why[m] == why0[m])
  }

  lemma FanStart(nodes: map<string, Record>, edges: map<string, Record>, dir: Dir, n: string,
                 list0: seq<string>, add0: set<string>, sel0: map<string, Record>, why0: map<string, string>)
    requires Exact(nodes, edges, dir) && n in nodes && Copies(sel0, edges)
    ensures FanInv(nodes, edges, dir, n, list0, add0, sel0, why0, {}, list0, add0, sel0, why0)
  {
    AppendedNone(nodes, list0, add0);
  }

  /** One pass of the inner for: edge `e`.  A connected node that exists
      has the edge selected, and is appended and added unless added. */
  method Take(nodes: map<string, Record>, edges: map<string, Record>, dir: Dir, n: string, e: string,
              ghost list0: seq<string>, ghost add0: set<string>, ghost sel0: map<string, Record>, ghost why0: map<string, string>,
              ghost done: set<string>, list1: seq<string>, add1: set<string>, sel1: map<string, Record>,
              ghost why1: map<string, string>)
    returns (list: seq<string>, add: set<string>, sel: map<string, Record>, ghost why: map<string, string>)
    requires FanInv(nodes, edges, dir, n, list0, add0, sel0, why0, done, list1, add1, sel1, why1)
    requires e in Adj(nodes[n], dir)
    ensures FanInv(nodes, edges, dir, n, list0, add0, sel0, why0, done + {e}, list, add, sel, why)
  {
    list, add, sel, why := list1, add1, sel1, why1;
    var connected := End(edges[e], Opposite(dir));
    if connected in nodes {
      sel := sel[e := edges[e]];
      if connected !in add {
        AppendedOne(nodes, list0, list, add0, add, connected);
        list := list + [connected];
        add := add + {connected};
        why := why[connected := e];
      }
    }
  }

  /** The inner for of the walk over the edges of `n` in direction `dir`:
      each edge whose connected node exists is selected, and a connected
      node not added yet is appended and added. */
  method Fan(nodes: map<string, Record>, edges: map<string, Record>, dir: Dir, n: string,
             list0: seq<string>, add0: set<string>, sel0: map<string, Record>, ghost why0: map<string, string>)
    returns (list: seq<string>, add: set<string>, sel: map<string, Record>, ghost why: map<string, string>)
    requires Exact(nodes, edges, dir) && n in nodes && Copies(sel0, edges)
    ensures Copies(sel, edges) && sel.Keys == sel0.Keys + Spreads(nodes, edges, dir, {n})
    ensures forall e :: e in Spreads(nodes, edges, dir, {n}) ==> End(edges[e], Opposite(dir)) in add
    ensures Appended(nodes, list0, list, add0, add)
    ensures forall k :: |list0| <= k < |list| ==>
      list[k] in why && why[list[k]] in edges &&
      End(edges[why[list[k]]], dir) == n && End(edges[why[list[k]]], Opposite(dir)) == list[k]
    ensures forall m :: m in why0 && m in add0 ==> m in why && why[m] == why0[m]
  {
    list, add, sel, why := list0, add0, sel0, why0;
    FanStart(nodes, edges, dir, n, list0, add0, sel0, why0);
    var todo := Adj(nodes[n], dir);
    ghost var done: set<string> := {};
    while todo != {}
      invariant done + todo == Adj(nodes[n], dir)
      invariant FanInv(nodes, edges, dir, n, list0, add0, sel0, why0, done, list, add, sel, why)
      decreases todo
    {
      var e :| e in todo;
      list, add, sel, why := Take(nodes, edges, dir, n, e, list0, add0, sel0, why0, done, list, add, sel, why);
      todo := todo - {e};
      done := done + {e};
    }
    FanEnd(nodes, edges, dir, n, list0, add0, sel0, why0, list, add, sel, why);
  }

  lemma FanEnd(nodes: map<string, Record>, edges: map<string, Record>, dir: Dir, n: string,
               list0: seq<string>, add0: set<string>, sel0: map<string, Record>, why0: map<string, string>,
               list: seq<string>, add: set<string>, sel: map<string, Record>, why: map<string, string>)
    requires Exact(nodes, edges, dir) && n in nodes
    requires FanInv(nodes, edges, dir, n, list0, add0, sel0, why0, Adj(nodes[n], dir), list, add, sel, why)
    ensures sel.Keys == sel0.Keys + Spreads(nodes, edges, dir, {n})
    ensures forall e :: e in Spreads(nodes, edges, dir, {n}) ==> End(edges[e], Opposite(dir)) in add
    ensures forall k :: |list0| <= k < |list| ==>
      list[k] in why && why[list[k]] in edges &&
      End(edges[why[list[k]]], dir) == n && End(edges[why[list[k]]], Opposite(dir)) == list[k]
  {
    forall e ensures e in Spreads(nodes, edges, dir, {n}) <==> e in Adj(nodes[n], dir) && End(edges[e], Opposite(dir)) in nodes {
    }
  }

  /** A node past the first `lo` entries came in through an edge in
      direction `dir` from a node listed before it. */
  ghost predicate Tree(nodes: map<string, Record>, edges: map<string, Record>, dir: Dir,
                       list: seq<string>, lo: nat, why: map<string, string>)
  {
    Wf(nodes, edges) &&
    forall k :: lo <= k < |list| ==>
      list[k] in why && why[list[k]] in edges &&
      End(edges[why[list[k]]], Opposite(dir)) == list[k] && End(edges[why[list[k]]], dir) in Elems(list[..k])
  }

  lemma TreeStep(nodes: map<string, Record>, edges: map<string, Record>, dir: Dir, lo: nat,
                 list: seq<string>, add: set<string>, why: map<string, string>, i: nat,
                 list': seq<string>, add': set<string>, why': map<string, string>)
    requires Tree(nodes, edges, dir, list, lo, why) && i < |list| && Elems(list) <= add
    requires Appended(nodes, list, list', add, add')
    requires forall k :: |list| <= k < |list'| ==>
      list'[k] in why' && why'[list'[k]] in edges &&
      End(edges[why'[list'[k]]], dir) == list[i] && End(edges[why'[list'[k]]], Opposite(dir)) == list'[k]
    requires forall m :: m in why && m in add ==> m in why' && why'[m] == why[m]
    ensures Tree(nodes, edges, dir, list', lo, why')
  {
    forall k | lo <= k < |list'|
      ensures list'[k] in why' && why'[list'[k]] in edges &&
        End(edges[why'[list'[k]]], Opposite(dir)) == list'[k] && End(edges[why'[list'[k]]], dir) in Elems(list'[..k])
    {
      if k < |list| {
        assert list'[k] == list[k] && list'[..k] == list[..k];
        assert list[k] in Elems(list);
      } else {
        assert list'[..k][i] == list[i];
      }
    }
  }

  /** What the walk has taken once the first `i` listed nodes are done. */
  ghost predicate Walked(nodes: map<string, Record>, edges: map<string, Record>, dir: Dir,
                         list: seq<string>, i: nat, add: set<string>, sel0: map<string, Record>, sel: map<string, Record>)
  {
    Wf(nodes, edges) && i <= |list| &&
    Copies(sel, edges) && sel.Keys == sel0.Keys + Spreads(nodes, edges, dir, Elems(list[..i])) &&
    forall e :: e in Spreads(nodes, edges, dir, Elems(list[..i])) ==> End(edges[e], Opposite(dir)) in add
  }

  lemma WalkedStep(nodes: map<string, Record>, edges: map<string, Record>, dir: Dir,
                   list: seq<string>, i: nat, add: set<string>, sel0: map<string, Record>, sel: map<string, Record>,
                   list': seq<string>, add': set<string>, sel': map<string, Record>)
    requires Walked(nodes, edges, dir, list, i, add, sel0, sel) && i < |list|
    requires |list| <= |list'| && list'[..|list|] == list && add <= add'
    requires Copies(sel', edges) && sel'.Keys == sel.Keys + Spreads(nodes, edges, dir, {list[i]})
    requires forall e :: e in Spreads(nodes, edges, dir, {list[i]}) ==> End(edges[e], Opposite(dir)) in add'
    ensures Walked(nodes, edges, dir, list', i + 1, add', sel0, sel')
  {
    ElemsPrefix(list, list', i);
    SpreadsUnion(nodes, edges, dir, Elems(list[..i]), {list[i]});
  }

  lemma ElemsPrefix(list: seq<string>, list': seq<string>, i: nat)
    requires i < |list| <= |list'| && list'[..|list|] == list
    ensures Elems(list'[..i + 1]) == Elems(list[..i]) + {list[i]}
  {
    assert list'[..i + 1] == list[..i] + [list[i]];
  }

  lemma SpreadsUnion(nodes: map<string, Record>, edges: map<string, Record>, dir: Dir, a: set<string>, b: set<string>)
    requires Wf(nodes, edges)
    ensures Spreads(nodes, edges, dir, a + b) == Spreads(nodes, edges, dir, a) + Spreads(nodes, edges, dir, b)
  {
  }

  /** The state of the first while of select_recursive once the first `i`
      listed nodes are done. */
  ghost predicate WalkInv(nodes: map<string, Record>, edges: map<string, Record>, dir: Dir,
                          list0: seq<string>, add0: set<string>, sel0: map<string, Record>,
                          list: seq<string>, i: nat, add: set<string>, sel: map<string, Record>,
                          why: map<string, string>)
  {
    Appended(nodes, list0, list, add0, add) &&
    !HasDuplicates(list) && Elems(list) <= nodes.Keys && |list| <= |nodes.Keys| && add == add0 + Elems(list) &&
    Walked(nodes, edges, dir, list, i, add, sel0, sel) &&
    Tree(nodes, edges, dir, list, |list0|, why)
  }

  lemma WalkStart(nodes: map<string, Record>, edges: map<string, Record>, dir: Dir,
                  list0: seq<string>, add0: set<string>, sel0: map<string, Record>)
    requires Exact(nodes, edges, dir) && Copies(sel0, edges)
    requires !HasDuplicates(list0) && Elems(list0) <= nodes.Keys && Elems(list0) <= add0
    ensures WalkInv(nodes, edges, dir, list0, add0, sel0, list0, 0, add0, sel0, map[])
  {
    AppendedNone(nodes, list0, add0);
    ListBound(list0, nodes.Keys);
    WalkedNone(nodes, edges, dir, list0, add0, sel0);
    assert add0 == add0 + Elems(list0) && Tree(nodes, edges, dir, list0, |list0|, map[]);
  }

  lemma WalkedNone(nodes: map<string, Record>, edges: map<string, Record>, dir: Dir,
                   list: seq<string>, add: set<string>, sel: map<string, Record>)
    requires Wf(nodes, edges) && Copies(sel, edges)
    ensures Walked(nodes, edges, dir, list, 0, add, sel, sel)
  {
    assert Elems(list[..0]) == {};
    assert Spreads(nodes, edges, dir, {}) == {};
  }

  /** One pass of the first while: the edges of `list[i]`. */
  method WalkOne(nodes: map<string, Record>, edges: map<string, Record>, dir: Dir,
                 ghost list0: seq<string>, ghost add0: set<string>, ghost sel0: map<string, Record>,
                 list1: seq<string>, i: nat, add1: set<string>, sel1: map<string, Record>,
                 ghost why1: map<string, string>)
    returns (list: seq<string>, add: set<string>, sel: map<string, Record>, ghost why: map<string, string>)
    requires Exact(nodes, edges, dir) && Copies(sel0, edges) && i < |list1|
    requires !HasDuplicates(list0) && Elems(list0) <= add0
    requires WalkInv(nodes, edges, dir, list0, add0, sel0, list1, i, add1, sel1, why1)
    ensures WalkInv(nodes, edges, dir, list0, add0, sel0, list, i + 1, add, sel, why)
  {
    list, add, sel, why := Fan(nodes, edges, dir, list1[i], list1, add1, sel1, why1);
    NoRepeats(nodes, list1, list, add1, add);
    ListBound(list, nodes.Keys);
    AppendedTrans(nodes, list0, list1, list, add0, add1, add);
    WalkedStep(nodes, edges, dir, list1, i, add1, sel0, sel1, list, add, sel);
    TreeStep(nodes, edges, dir, |list0|, list1, add1, why1, i, list, add, why);
  }

  /** The first while of select_recursive: walk the list, growing it, until
      every listed node is done. */
  method Spread(nodes: map<string, Record>, edges: map<string, Record>, dir: Dir,
                list0: seq<string>, add0: set<string>, sel0: map<string, Record>)
    returns (list: seq<string>, add: set<string>, sel: map<string, Record>, ghost why: map<string, string>)
    requires Exact(nodes, edges, dir) && Copies(sel0, edges)
    requires !HasDuplicates(list0) && Elems(list0) <= nodes.Keys && Elems(list0) <= add0
    ensures WalkInv(nodes, edges, dir, list0, add0, sel0, list, |list|, add, sel, why)
  {
    list, add, sel, why := list0, add0, sel0, map[];
    WalkStart(nodes, edges, dir, list0, add0, sel0);
    var i := 0;
    while i < |list|
      invariant i <= |list|
      invariant WalkInv(nodes, edges, dir, list0, add0, sel0, list, i, add, sel, why)
      decreases |nodes.Keys| - i
    {
      list, add, sel, why := WalkOne(nodes, edges, dir, list0, add0, sel0, list, i, add, sel, why);
      i := i + 1;
    }
  }

  // ---------------------------------------------------------------------
  // The scopes of the appended nodes

  /** `p` climbs scopes: every entry is a node and each entry after the
      first is a scope of the one before it. */
  ghost predicate ScopePath(nodes: map<string, Record>, p: seq<string>)
  {
    Shaped(nodes) && |p| > 0 &&
    (forall i :: 0 <= i < |p| ==> p[i] in nodes) &&
    (forall i :: 0 <= i < |p| - 1 ==> p[i + 1] in Scopes(nodes[p[i]]))
  }

  lemma ScopePathStep(nodes: map<string, Record>, p: seq<string>, s: string)
    requires ScopePath(nodes, p) && s in nodes && s in Scopes(nodes[p[|p| - 1]])
    ensures ScopePath(nodes, p + [s])
  {
  }

  /** The for over the scope set of the current node: each member that is a
      node becomes the current node and is appended unless already added; a
      member that is not a node sets `skip`. */
  method ScopeFor(nodes: map<string, Record>, scope: set<string>, cur0: string, ghost path: seq<string>,
                  list0: seq<string>, add0: set<string>, ghost chain0: map<string, seq<string>>)
    returns (cur: string, skip: bool, list: seq<string>, add: set<string>, ghost chain: map<string, seq<string>>)
    requires ScopePath(nodes, path) && path[|path| - 1] == cur0 && scope == Scopes(nodes[cur0])
    ensures Appended(nodes, list0, list, add0, add)
    ensures forall s :: s in scope && s in nodes ==> s in add
    ensures skip <==> !(scope <= nodes.Keys)
    ensures cur == cur0 || (cur in scope && cur in nodes)
    ensures !skip && scope != {} ==> cur in scope
    ensures forall k :: |list0| <= k < |list| ==> list[k] in scope && list[k] in chain && chain[list[k]] == path + [list[k]]
    ensures forall m :: m in chain0 && m in add0 ==> m in chain && chain[m] == chain0[m]
  {
    cur, skip, list, add, chain := cur0, false, list0, add0, chain0;
    AppendedNone(nodes, list0, add0);
    var todo := scope;
    ghost var done: set<string> := {};
    while todo != {}
      invariant done + todo == scope && done !! todo
      invariant Appended(nodes, list0, list, add0, add)
      invariant forall s :: s in done && s in nodes ==> s in add
      invariant skip <==> !(done <= nodes.Keys)
      invariant cur == cur0 || (cur in scope && cur in nodes)
      invariant done != {} && done <= nodes.Keys ==> cur in scope
      invariant forall k :: |list0| <= k < |list| ==> list[k] in scope && list[k] in chain && chain[list[k]] == path + [list[k]]
      invariant forall m :: m in chain0 && m in add0 ==> m in chain && chain[m] == chain0[m]
      decreases todo
    {
      var id :| id in todo;
      todo := todo - {id};
      done := done + {id};
      if id !in nodes {
        skip := true;
        continue;
      }
      cur := id;
      if id !in add {
        AppendedOne(nodes, list0, list, add0, add, id);
        list := list + [id];
        add := add + {id};
        chain := chain[id := path + [id]];
      }
    }
  }

  /** Entry `k` of `list` past `lo` has a scope climb to it from an entry of
      `list0` in `[lo, hi)`. */
  ghost predicate Chained(nodes: map<string, Record>, list: seq<string>, lo: nat, hi: nat, roots: set<string>,
                          chain: map<string, seq<string>>)
  {
    forall k :: lo <= k < |list| ==>
      list[k] in chain && ScopePath(nodes, chain[list[k]]) &&
      chain[list[k]][0] in roots && chain[list[k]][|chain[list[k]]| - 1] == list[k]
  }

  /** The nodes one pass of the scope for appends climb one step further
      from the current node, so the climbs stay chained. */
  lemma ChainedStep(nodes: map<string, Record>, path: seq<string>, list0: seq<string>, add0: set<string>,
                    list1: seq<string>, add1: set<string>, chain1: map<string, seq<string>>,
                    list: seq<string>, add: set<string>, chain: map<string, seq<string>>)
    requires ScopePath(nodes, path)
    requires Appended(nodes, list0, list1, add0, add1) && Appended(nodes, list1, list, add1, add)
    requires Chained(nodes, list1, |list0|, |list1|, {path[0]}, chain1)
    requires forall m :: m in chain1 && m in add1 ==> m in chain && chain[m] == chain1[m]
    requires forall k :: |list1| <= k < |list| ==>
      list[k] in Scopes(nodes[path[|path| - 1]]) && list[k] in chain && chain[list[k]] == path + [list[k]]
    ensures Chained(nodes, list, |list0|, |list|, {path[0]}, chain)
  {
    forall k | |list0| <= k < |list|
      ensures list[k] in chain && ScopePath(nodes, chain[list[k]]) &&
        chain[list[k]][0] in {path[0]} && chain[list[k]][|chain[list[k]]| - 1] == list[k]
    {
      if k < |list1| {
        assert list[k] == list1[k] && list1[k] in add1;
      } else {
        ScopePathStep(nodes, path, list[k]);
      }
    }
  }

  /** The invariant of the inner while of the scope pass: the current
      node ends a scope climb from the root, the nodes appended so far are
      chained, and once past the first step every scope of `start` that is
      a node is added. */
  ghost predicate Climbing(nodes: map<string, Record>, start: string, root: seq<string>,
                           list0: seq<string>, add0: set<string>, chain0: map<string, seq<string>>,
                           cur: string, path: seq<string>, seen: set<string>,
                           list: seq<string>, add: set<string>, chain: map<string, seq<string>>,
                           first: bool, skip: bool)
  {
    |root| > 0 && start in nodes && cur in nodes && cur in seen && seen <= nodes.Keys &&
    ScopePath(nodes, path) && path[0] == root[0] && path[|path| - 1] == cur &&
    Appended(nodes, list0, list, add0, add) &&
    Chained(nodes, list, |list0|, |list|, {root[0]}, chain) &&
    (forall m :: m in chain0 && m in add0 ==> m in chain && chain[m] == chain0[m]) &&
    (first ==> cur == start && !skip) &&
    (!first ==> forall s :: s in Scopes(nodes[start]) && s in nodes ==> s in add)
  }

  /** One pass of the inner while keeps its invariant: where the current
      node stays (a scope that is not a node) and, when the move reaches a
      node not passed yet, at that node. */
  lemma ClimbingStep(nodes: map<string, Record>, start: string, root: seq<string>,
                     list0: seq<string>, add0: set<string>, chain0: map<string, seq<string>>,
                     cur: string, path: seq<string>, seen: set<string>, first: bool,
                     list1: seq<string>, add1: set<string>, chain1: map<string, seq<string>>,
                     next: string, skip: bool,
                     list: seq<string>, add: set<string>, chain: map<string, seq<string>>)
    requires Climbing(nodes, start, root, list0, add0, chain0, cur, path, seen, list1, add1, chain1, first, false)
    requires Scopes(nodes[cur]) != {}
    requires Appended(nodes, list1, list, add1, add)
    requires forall s :: s in Scopes(nodes[cur]) && s in nodes ==> s in add
    requires skip <==> !(Scopes(nodes[cur]) <= nodes.Keys)
    requires next == cur || (next in Scopes(nodes[cur]) && next in nodes)
    requires !skip ==> next in Scopes(nodes[cur])
    requires forall k :: |list1| <= k < |list| ==>
      list[k] in Scopes(nodes[cur]) && list[k] in chain && chain[list[k]] == path + [list[k]]
    requires forall m :: m in chain1 && m in add1 ==> m in chain && chain[m] == chain1[m]
    ensures Climbing(nodes, start, root, list0, add0, chain0, cur, path, seen, list, add, chain, false, true)
    ensures !skip && next !in seen ==>
      next in nodes && Climbing(nodes, start, root, list0, add0, chain0, next, path + [next], seen + {next},
                                list, add, chain, false, false)
  {
    AppendedTrans(nodes, list0, list1, list, add0, add1, add);
    ChainedStep(nodes, path, list0, add0, list1, add1, chain1, list, add, chain);
    if !skip && next !in seen {
      ScopePathStep(nodes, path, next);
    }
  }

  /** The inner while of the scope pass for one listed node: add every scope
      of the current node and move on to the last of them that is a node,
      until a root or a scope that is not a node.  An empty scope set leaves
      the current node unchanged, and a move back to a node already passed
      repeats the same moves; the source loops forever in both cases. */
  method Chain(nodes: map<string, Record>, start: string, ghost root: seq<string>,
               list0: seq<string>, add0: set<string>, ghost chain0: map<string, seq<string>>)
    returns (failure: Option<Error>, list: seq<string>, add: set<string>, ghost chain: map<string, seq<string>>)
    requires ScopePath(nodes, root) && root[|root| - 1] == start
    ensures failure.Some? ==> failure.value.Diverges?
    ensures Appended(nodes, list0, list, add0, add)
    ensures Chained(nodes, list, |list0|, |list|, {root[0]}, chain)
    ensures forall m :: m in chain0 && m in add0 ==> m in chain && chain[m] == chain0[m]
    ensures failure.None? ==> forall s :: s in Scopes(nodes[start]) && s in nodes ==> s in add
  {
    list, add, chain := list0, add0, chain0;
    AppendedNone(nodes, list0, add0);
    var cur := start;
    var skip := false;
    ghost var path := root;
    var seen: set<string> := {start};
    ghost var first := true;
    while nodes[cur]["scope"].StrSet? && !skip
      invariant Climbing(nodes, start, root, list0, add0, chain0, cur, path, seen, list, add, chain, first, skip)
      decreases nodes.Keys - seen, if skip then 0 else 1
    {
      var scope := nodes[cur]["scope"].elems;
      if scope == {} {
        return Some(Diverges(cur)), list, add, chain;
      }
      ghost var list1, add1, chain1 := list, add, chain;
      var next;
      next, skip, list, add, chain := ScopeFor(nodes, scope, cur, path, list, add, chain);
      ClimbingStep(nodes, start, root, list0, add0, chain0, cur, path, seen, first, list1, add1, chain1,
                   next, skip, list, add, chain);
      first := false;
      if !skip {
        if next in seen {
          return Some(Diverges(next)), list, add, chain;
        }
        seen := seen + {next};
        path := path + [next];
        cur := next;
      }
    }
    failure := None;
  }

  /** The state of the second while once the entries of `list` in
      `[original, index)` are done: each of their scopes that is a node is
      added, and every appended node has a scope climb to it from an entry
      of `list0` at or past `original`. */
  ghost predicate LiftInv(nodes: map<string, Record>, list0: seq<string>, original: nat,
                          list: seq<string>, index: nat, add0: set<string>, add: set<string>,
                          chain: map<string, seq<string>>)
  {
    Shaped(nodes) && original <= |list0| && original <= index <= |list| &&
    Appended(nodes, list0, list, add0, add) &&
    !HasDuplicates(list) && Elems(list) <= add && |list| <= |nodes.Keys| &&
    (forall k :: 0 <= k < |list| ==> list[k] in nodes) &&
    Chained(nodes, list, |list0|, |list|, Elems(list0[original..]), chain) &&
    (forall k, s :: original <= k < index && s in Scopes(nodes[list[k]]) && s in nodes ==> s in add)
  }

  lemma LiftStart(nodes: map<string, Record>, list0: seq<string>, original: nat, add0: set<string>)
    requires Shaped(nodes) && original <= |list0|
    requires !HasDuplicates(list0) && Elems(list0) <= nodes.Keys && Elems(list0) <= add0
    ensures LiftInv(nodes, list0, original, list0, original, add0, add0, map[])
  {
    AppendedNone(nodes, list0, add0);
    ListBound(list0, nodes.Keys);
    forall k | 0 <= k < |list0| ensures list0[k] in nodes {
      assert list0[k] in Elems(list0);
    }
  }

  /** One pass of the second while: the scopes above `list[index]`. */
  method LiftOne(nodes: map<string, Record>, ghost list0: seq<string>, original: nat, ghost add0: set<string>,
                 list1: seq<string>, index: nat, add1: set<string>, ghost chain1: map<string, seq<string>>)
    returns (failure: Option<Error>, list: seq<string>, add: set<string>, ghost chain: map<string, seq<string>>)
    requires LiftInv(nodes, list0, original, list1, index, add0, add1, chain1) && index < |list1|
    ensures failure.Some? ==> failure.value.Diverges?
    ensures failure.None? ==> LiftInv(nodes, list0, original, list, index + 1, add0, add, chain)
  {
    ghost var root: seq<string>;
    if index < |list0| {
      root := [list1[index]];
      assert list1[index] == list0[index] && list0[original..][index - original] == list0[index];
    } else {
      root := chain1[list1[index]];
    }
    failure, list, add, chain := Chain(nodes, list1[index], root, list1, add1, chain1);
    if failure.Some? {
      return;
    }
    LiftStep(nodes, list0, original, add0, list1, index, add1, chain1, root[0], list, add, chain);
  }

  lemma LiftStep(nodes: map<string, Record>, list0: seq<string>, original: nat, add0: set<string>,
                 list1: seq<string>, index: nat, add1: set<string>, chain1: map<string, seq<string>>,
                 r: string, list: seq<string>, add: set<string>, chain: map<string, seq<string>>)
    requires LiftInv(nodes, list0, original, list1, index, add0, add1, chain1) && index < |list1|
    requires r in Elems(list0[original..])
    requires Appended(nodes, list1, list, add1, add)
    requires Chained(nodes, list, |list1|, |list|, {r}, chain)
    requires forall m :: m in chain1 && m in add1 ==> m in chain && chain[m] == chain1[m]
    requires forall s :: s in Scopes(nodes[list1[index]]) && s in nodes ==> s in add
    ensures LiftInv(nodes, list0, original, list, index + 1, add0, add, chain)
  {
    LiftShape(nodes, list0, add0, list1, add1, list, add);
    LiftChained(nodes, |list0|, Elems(list0[original..]), list1, add1, chain1, r, list, chain);
    LiftClosed(nodes, original, index, list1, add1, list, add);
  }

  lemma LiftShape(nodes: map<string, Record>, list0: seq<string>, add0: set<string>,
                  list1: seq<string>, add1: set<string>, list: seq<string>, add: set<string>)
    requires Appended(nodes, list0, list1, add0, add1) && !HasDuplicates(list1) && Elems(list1) <= add1
    requires forall k :: 0 <= k < |list1| ==> list1[k] in nodes
    requires Appended(nodes, list1, list, add1, add)
    ensures Appended(nodes, list0, list, add0, add) && !HasDuplicates(list) && Elems(list) <= add
    ensures |list| <= |nodes.Keys| && forall k :: 0 <= k < |list| ==> list[k] in nodes
  {
    NoRepeats(nodes, list1, list, add1, add);
    AppendedTrans(nodes, list0, list1, list, add0, add1, add);
    forall k | 0 <= k < |list| ensures list[k] in nodes {
      if k < |list1| { assert list[..|list1|] == list1; assert list[k] == list1[k]; }
    }
    forall x | x in Elems(list) ensures x in nodes {
      var k :| 0 <= k < |list| && list[k] == x;
    }
    ListBound(list, nodes.Keys);
  }

  lemma LiftChained(nodes: map<string, Record>, lo: nat, roots: set<string>,
                    list1: seq<string>, add1: set<string>, chain1: map<string, seq<string>>,
                    r: string, list: seq<string>, chain: map<string, seq<string>>)
    requires Chained(nodes, list1, lo, |list1|, roots, chain1) && Elems(list1) <= add1 && r in roots
    requires |list1| <= |list| && list[..|list1|] == list1
    requires Chained(nodes, list, |list1|, |list|, {r}, chain)
    requires forall m :: m in chain1 && m in add1 ==> m in chain && chain[m] == chain1[m]
    ensures Chained(nodes, list, lo, |list|, roots, chain)
  {
    forall k | lo <= k < |list|
      ensures list[k] in chain && ScopePath(nodes, chain[list[k]]) &&
        chain[list[k]][0] in roots && chain[list[k]][|chain[list[k]]| - 1] == list[k]
    {
      if k < |list1| {
        assert list[k] == list1[k] && list1[k] in Elems(list1);
      }
    }
  }

  lemma LiftClosed(nodes: map<string, Record>, original: nat, index: nat,
                   list1: seq<string>, add1: set<string>, list: seq<string>, add: set<string>)
    requires Shaped(nodes) && original <= index < |list1| <= |list| && list[..|list1|] == list1 && add1 <= add
    requires forall k :: 0 <= k < |list1| ==> list1[k] in nodes
    requires forall k, s :: original <= k < index && s in Scopes(nodes[list1[k]]) && s in nodes ==> s in add1
    requires forall s :: s in Scopes(nodes[list1[index]]) && s in nodes ==> s in add
    ensures forall k, s :: original <= k < index + 1 && list[k] in nodes && s in Scopes(nodes[list[k]]) && s in nodes ==> s in add
  {
    forall k, s | original <= k < index + 1 && list[k] in nodes && s in Scopes(nodes[list[k]]) && s in nodes ensures s in add {
      assert list[k] == list1[k];
    }
  }

  /** The second while of select_recursive: the scopes above every node
      past the first `original` entries, including those it appends. */
  method Ancestors(nodes: map<string, Record>, list0: seq<string>, original: nat, add0: set<string>)
    returns (failure: Option<Error>, list: seq<string>, add: set<string>, ghost chain: map<string, seq<string>>)
    requires Shaped(nodes) && original <= |list0|
    requires !HasDuplicates(list0) && Elems(list0) <= nodes.Keys && Elems(list0) <= add0
    ensures failure.Some? ==> failure.value.Diverges?
    ensures failure.None? ==> LiftInv(nodes, list0, original, list, |list|, add0, add, chain)
  {
    list, add, chain := list0, add0, map[];
    LiftStart(nodes, list0, original, add0);
    var index := original;
    while index < |list|
      invariant LiftInv(nodes, list0, original, list, index, add0, add, chain)
      decreases |nodes.Keys| - index
    {
      failure, list, add, chain := LiftOne(nodes, list0, original, add0, list, index, add, chain);
      if failure.Some? {
        return;
      }
      index := index + 1;
    }
    failure := None;
  }

  /** Python's `list(s)`: the members of a set in some order. */
  method ListOf(s: set<string>) returns (list: seq<string>)
    ensures !HasDuplicates(list) && Elems(list) == s && |list| == |s|
  {
    list := [];
    var rest := s;
    while rest != {}
      invariant Elems(list) + rest == s && Elems(list) !! rest && !HasDuplicates(list)
      decreases rest
    {
      var x :| x in rest;
      assert x !in Elems(list);
      list := list + [x];
      rest := rest - {x};
    }
    DistinctCard(list);
  }

  /** select_recursive in direction `dir`, starting from what earlier
      policies picked in `p0`.  The requested nodes are listed and walked
      breadth first: the walk selects exactly the edges in direction `dir`
      from the nodes it lists whose connected node exists, the connected
      node of each is added or listed, and every listed node came in through
      such an edge from a node listed before it.  The scope pass then adds
      every scope that is a node of every node the walk appended, and of the
      nodes it appends in turn, each reached by a scope climb from a node
      the walk appended.  Finally the requested nodes leave the added set. */
  method SelectRecursive(view: set<string>, nodes: map<string, Record>, edges: map<string, Record>,
                         dir: Dir, p0: Picked)
    returns (r: Result<Picked>, ghost list: seq<string>, ghost bfs: nat,
             ghost why: map<string, string>, ghost chain: map<string, seq<string>>)
    requires Graph(nodes, edges) && view <= nodes.Keys && Copies(p0.sel, edges)
    ensures r.Err? ==> r.error.Diverges?
    ensures r.Ok? ==> r.value.custom == p0.custom
    ensures r.Ok? ==> |view| <= bfs <= |list| && Elems(list[..|view|]) == view && !HasDuplicates(list)
    ensures r.Ok? ==> r.value.add == (p0.add + Elems(list)) - view
    ensures r.Ok? ==> forall k :: |view| <= k < |list| ==> list[k] in nodes && list[k] !in p0.add + view
    ensures r.Ok? ==> Copies(r.value.sel, edges)
    ensures r.Ok? ==> r.value.sel.Keys == p0.sel.Keys + Spreads(nodes, edges, dir, Elems(list[..bfs]))
    ensures r.Ok? ==> forall e :: e in Spreads(nodes, edges, dir, Elems(list[..bfs])) ==>
      End(edges[e], Opposite(dir)) in p0.add + Elems(list[..bfs])
    ensures r.Ok? ==> Tree(nodes, edges, dir, list[..bfs], |view|, why)
    ensures r.Ok? ==> forall k, s :: |view| <= k < |list| && s in Scopes(nodes[list[k]]) && s in nodes ==>
      s in p0.add + Elems(list)
    ensures r.Ok? ==> Chained(nodes, list, bfs, |list|, Elems(list[|view|..bfs]), chain)
  {
    GraphExact(nodes, edges, dir);
    var add := p0.add + view;
    var list0 := ListOf(view);
    var walked, added, sel;
    walked, added, sel, why := Spread(nodes, edges, dir, list0, add, p0.sel);
    var failure;
    failure, list, add, chain := Ancestors(nodes, walked, |list0|, added);
    bfs := |walked|;
    if failure.Some? {
      return Err(failure.value), list, bfs, why, chain;
    }
    EndLists(nodes, view, p0.add, list0, walked, added, list, add);
    EndWalk(nodes, edges, dir, view, p0.add, p0.sel, walked, added, sel, why, list);
    EndScopes(nodes, view, p0.add, walked, added, list, add, chain);
    r := Ok(Picked(sel, p0.custom, add - view));
  }

  /** How the two whiles of select_recursive compose: the lists and the
      added set. */
  lemma EndLists(nodes: map<string, Record>, view: set<string>, add0: set<string>,
                 list0: seq<string>, walked: seq<string>, added: set<string>,
                 list: seq<string>, add: set<string>)
    requires !HasDuplicates(list0) && Elems(list0) == view && |list0| == |view|
    requires Appended(nodes, list0, walked, add0 + view, added) && added == add0 + view + Elems(walked)
    requires Appended(nodes, walked, list, added, add) && !HasDuplicates(list)
    ensures |view| <= |walked| <= |list| && Elems(list[..|view|]) == view
    ensures add == add0 + Elems(list)
    ensures forall k :: |view| <= k < |list| ==> list[k] in nodes && list[k] !in add0 + view
  {
    assert list[..|view|] == list0 by {
      assert list[..|walked|] == walked;
      assert walked[..|list0|] == list0;
    }
    ElemsSplit(list, |walked|);
    forall k | |view| <= k < |list| ensures list[k] in nodes && list[k] !in add0 + view {
      if k < |walked| {
        assert list[..|walked|] == walked;
        assert list[k] == walked[k];
      }
    }
  }

  /** How the two whiles of select_recursive compose: the walk. */
  lemma EndWalk(nodes: map<string, Record>, edges: map<string, Record>, dir: Dir, view: set<string>,
                add0: set<string>, sel0: map<string, Record>,
                walked: seq<string>, added: set<string>, sel: map<string, Record>, why: map<string, string>,
                list: seq<string>)
    requires Walked(nodes, edges, dir, walked, |walked|, added, sel0, sel)
    requires Tree(nodes, edges, dir, walked, |view|, why)
    requires added == add0 + view + Elems(walked) && view <= Elems(walked)
    requires |walked| <= |list| && list[..|walked|] == walked
    ensures Copies(sel, edges) && sel.Keys == sel0.Keys + Spreads(nodes, edges, dir, Elems(list[..|walked|]))
    ensures forall e :: e in Spreads(nodes, edges, dir, Elems(list[..|walked|])) ==>
      End(edges[e], Opposite(dir)) in add0 + Elems(list[..|walked|])
    ensures Tree(nodes, edges, dir, list[..|walked|], |view|, why)
  {
    assert walked[..|walked|] == walked;
  }

  /** How the two whiles of select_recursive compose: the scope pass. */
  lemma EndScopes(nodes: map<string, Record>, view: set<string>, add0: set<string>,
                  walked: seq<string>, added: set<string>, list: seq<string>, add: set<string>,
                  chain: map<string, seq<string>>)
    requires |view| <= |walked| && LiftInv(nodes, walked, |view|, list, |list|, added, add, chain)
    requires add == add0 + Elems(list)
    ensures forall k :: 0 <= k < |list| ==> list[k] in nodes
    ensures forall k, s :: |view| <= k < |list| && s in Scopes(nodes[list[k]]) && s in nodes ==>
      s in add0 + Elems(list)
    ensures Chained(nodes, list, |walked|, |list|, Elems(list[|view|..|walked|]), chain)
  {
    assert list[|view|..|walked|] == walked[|view|..] by {
      assert list[..|walked|] == walked;
    }
  }

  lemma ElemsSplit(s: seq<string>, i: nat)
    requires i <= |s|
    ensures Elems(s) == Elems(s[..i]) + Elems(s[i..])
  {
    assert s == s[..i] + s[i..];
  }

  /** `p` is a walk along edges in direction `dir`: edge `es[i]` is met in
      direction `dir` at `p[i]` and connects it to `p[i + 1]`. */
  ghost predicate DirPath(nodes: map<string, Record>, edges: map<string, Record>, dir: Dir,
                          p: seq<string>, es: seq<string>)
  {
    Wf(nodes, edges) && |p| == |es| + 1 &&
    forall i :: 0 <= i < |es| ==>
      es[i] in edges && End(edges[es[i]], dir) == p[i] && End(edges[es[i]], Opposite(dir)) == p[i + 1]
  }

  /** A set closed as the walk leaves its listed nodes holds every node
      reachable from it along edges in direction `dir` without passing a
      node that was added before: the walk misses nothing it can reach. */
  lemma {:induction false} ClosedReach(nodes: map<string, Record>, edges: map<string, Record>, dir: Dir,
                                       q: set<string>, before: set<string>, p: seq<string>, es: seq<string>)
    requires DirPath(nodes, edges, dir, p, es) && p[0] in q
    requires forall e :: e in Spreads(nodes, edges, dir, q) ==> End(edges[e], Opposite(dir)) in before + q
    requires forall i :: 0 < i < |p| ==> p[i] in nodes && p[i] !in before
    ensures forall i :: 0 <= i < |p| ==> p[i] in q
    decreases |p|
  {
    if |p| > 1 {
      var p', es' := p[..|p| - 1], es[..|es| - 1];
      ClosedReach(nodes, edges, dir, q, before, p', es');
      var e := es[|es| - 1];
      assert p[|p| - 2] == p'[|p'| - 1] && p'[|p'| - 1] in q;
      assert e in edges && End(edges[e], dir) == p[|p| - 2] && End(edges[e], Opposite(dir)) == p[|p| - 1];
      assert e in Spreads(nodes, edges, dir, q);
      forall i | 0 <= i < |p| ensures p[i] in q {
        if i < |p| - 1 { assert p[i] == p'[i]; }
      }
    }
  }

  /** `x` is reachable from a requested node along edges in direction
      `dir`, every node after the first being a node not in `avoid`: the
      nodes the breadth-first walk lists when `avoid` was added before it. */
  ghost predicate Reaches(nodes: map<string, Record>, edges: map<string, Record>, dir: Dir,
                          view: set<string>, avoid: set<string>, x: string)
  {
    exists p, es :: DirPath(nodes, edges, dir, p, es) && p[0] in view && p[|p| - 1] == x &&
      forall i :: 0 < i < |p| ==> p[i] in nodes && p[i] !in avoid
  }

  ghost function Reach(nodes: map<string, Record>, edges: map<string, Record>, dir: Dir,
                       view: set<string>, avoid: set<string>): set<string>
  {
    set x | x in nodes.Keys && Reaches(nodes, edges, dir, view, avoid, x)
  }

  /** Every requested node is reached. */
  lemma ReachHasView(nodes: map<string, Record>, edges: map<string, Record>, dir: Dir,
                     view: set<string>, avoid: set<string>)
    requires Wf(nodes, edges) && view <= nodes.Keys
    ensures view <= Reach(nodes, edges, dir, view, avoid)
  {
    forall x | x in view ensures Reaches(nodes, edges, dir, view, avoid, x) {
      assert DirPath(nodes, edges, dir, [x], []);
    }
  }

  /** A path whose last edge leads on to `x` through known nodes not added
      before still reaches. */
  lemma ReachesStep(nodes: map<string, Record>, edges: map<string, Record>, dir: Dir,
                    view: set<string>, avoid: set<string>, y: string, e: string, x: string)
    requires Reaches(nodes, edges, dir, view, avoid, y)
    requires e in edges && End(edges[e], dir) == y && End(edges[e], Opposite(dir)) == x
    requires x in nodes && x !in avoid
    ensures Reaches(nodes, edges, dir, view, avoid, x)
  {
    var p, es :| DirPath(nodes, edges, dir, p, es) && p[0] in view && p[|p| - 1] == y &&
      forall i :: 0 < i < |p| ==> p[i] in nodes && p[i] !in avoid;
    var p', es' := p + [x], es + [e];
    forall i | 0 <= i < |es'|
      ensures es'[i] in edges && End(edges[es'[i]], dir) == p'[i] && End(edges[es'[i]], Opposite(dir)) == p'[i + 1]
    {
      if i < |es| {
        assert es'[i] == es[i] && p'[i] == p[i] && p'[i + 1] == p[i + 1];
      }
    }
    forall i | 0 < i < |p'| ensures p'[i] in nodes && p'[i] !in avoid {
      if i < |p| { assert p'[i] == p[i]; }
    }
    assert DirPath(nodes, edges, dir, p', es');
  }

  /** The why-links of the walk lead back to a requested node. */
  lemma {:induction false} PathTo(nodes: map<string, Record>, edges: map<string, Record>, dir: Dir,
                                  view: set<string>, avoid: set<string>, list: seq<string>,
                                  why: map<string, string>, k: nat)
    requires Tree(nodes, edges, dir, list, |view|, why)
    requires |view| <= |list| && Elems(list[..|view|]) == view
    requires forall j :: |view| <= j < |list| ==> list[j] in nodes && list[j] !in avoid
    requires k < |list|
    ensures Reaches(nodes, edges, dir, view, avoid, list[k])
    decreases k
  {
    if k < |view| {
      assert list[..|view|][k] == list[k];
      assert DirPath(nodes, edges, dir, [list[k]], []);
    } else {
      var e := why[list[k]];
      var j :| 0 <= j < k && list[..k][j] == End(edges[e], dir);
      PathTo(nodes, edges, dir, view, avoid, list, why, j);
      ReachesStep(nodes, edges, dir, view, avoid, list[j], e, list[k]);
    }
  }

  /** Every node the walk lists is reachable. */
  lemma WalkWithinReach(nodes: map<string, Record>, edges: map<string, Record>, dir: Dir,
                        view: set<string>, avoid: set<string>, walked: seq<string>, why: map<string, string>)
    requires view <= nodes.Keys && |view| <= |walked| && Elems(walked[..|view|]) == view
    requires forall k :: |view| <= k < |walked| ==> walked[k] in nodes && walked[k] !in avoid
    requires Tree(nodes, edges, dir, walked, |view|, why)
    ensures Elems(walked) <= Reach(nodes, edges, dir, view, avoid)
  {
    forall x | x in Elems(walked) ensures x in Reach(nodes, edges, dir, view, avoid) {
      var k :| 0 <= k < |walked| && walked[k] == x;
      PathTo(nodes, edges, dir, view, avoid, walked, why, k);
      if k < |view| {
        assert walked[..|view|][k] == x;
      }
    }
  }

  /** Every reachable node is listed by a walk closed under its edges. */
  lemma ReachWithinWalk(nodes: map<string, Record>, edges: map<string, Record>, dir: Dir,
                        view: set<string>, avoid: set<string>, walked: seq<string>)
    requires Wf(nodes, edges) && |view| <= |walked| && Elems(walked[..|view|]) == view
    requires forall e :: e in Spreads(nodes, edges, dir, Elems(walked)) ==>
      End(edges[e], Opposite(dir)) in avoid + Elems(walked)
    ensures Reach(nodes, edges, dir, view, avoid) <= Elems(walked)
  {
    forall x | x in Reach(nodes, edges, dir, view, avoid) ensures x in Elems(walked) {
      var p, es :| DirPath(nodes, edges, dir, p, es) && p[0] in view && p[|p| - 1] == x &&
        forall i :: 0 < i < |p| ==> p[i] in nodes && p[i] !in avoid;
      assert p[0] in Elems(walked) by {
        var k :| 0 <= k < |view| && walked[..|view|][k] == p[0];
        assert walked[k] == p[0];
      }
      ClosedReach(nodes, edges, dir, Elems(walked), avoid, p, es);
    }
  }

  /** The nodes the breadth-first walk lists are exactly those reachable
      from the requested nodes without passing a node added before. */
  lemma WalkIsReach(nodes: map<string, Record>, edges: map<string, Record>, dir: Dir,
                    view: set<string>, avoid: set<string>, list: seq<string>, bfs: nat, why: map<string, string>)
    requires view <= nodes.Keys && |view| <= bfs <= |list| && Elems(list[..|view|]) == view
    requires forall k :: |view| <= k < |list| ==> list[k] in nodes && list[k] !in avoid + view
    requires Tree(nodes, edges, dir, list[..bfs], |view|, why)
    requires forall e :: e in Spreads(nodes, edges, dir, Elems(list[..bfs])) ==>
      End(edges[e], Opposite(dir)) in avoid + Elems(list[..bfs])
    ensures Elems(list[..bfs]) == Reach(nodes, edges, dir, view, avoid)
  {
    var walked := list[..bfs];
    assert walked[..|view|] == list[..|view|];
    forall k | |view| <= k < |walked| ensures walked[k] in nodes && walked[k] !in avoid {
      assert walked[k] == list[k];
    }
    WalkWithinReach(nodes, edges, dir, view, avoid, walked, why);
    ReachWithinWalk(nodes, edges, dir, view, avoid, walked);
  }

  /** What one recursive pass from the picks `p0` to the picks `p` promises:
      the edges it adds are exactly those met in direction `dir` at a
      reachable node, whose other end is a node and is reachable or was
      added before; every reachable node is added; every scope that is a
      node of a node the pass added is shown; and every node the pass added
      beyond the reachable ones is reached by a scope climb from one of
      them. */
  ghost predicate Recursed(nodes: map<string, Record>, edges: map<string, Record>, dir: Dir,
                           view: set<string>, p0: Picked, p: Picked)
  {
    Wf(nodes, edges) && p.custom == p0.custom &&
    var reach := Reach(nodes, edges, dir, view, p0.add);
    p.sel.Keys == p0.sel.Keys + Spreads(nodes, edges, dir, reach) &&
    (forall e :: e in Spreads(nodes, edges, dir, reach) ==> End(edges[e], Opposite(dir)) in p0.add + reach) &&
    p0.add + (reach - view) <= p.add <= nodes.Keys && view !! p.add &&
    (forall x, s :: x in p.add - p0.add && s in Scopes(nodes[x]) && s in nodes ==> s in view + p.add) &&
    (forall x :: x in p.add - p0.add - reach ==>
      exists c :: ScopePath(nodes, c) && c[0] in reach - view && c[|c| - 1] == x)
  }

  /** A listed node that was not requested sits past the requested ones. */
  lemma PastView(view: set<string>, list: seq<string>, x: string) returns (k: nat)
    requires |view| <= |list| && Elems(list[..|view|]) == view && x in Elems(list) && x !in view
    ensures |view| <= k < |list| && list[k] == x
  {
    forall i | 0 <= i < |view| ensures list[i] in view {
      assert list[..|view|][i] == list[i];
    }
    k :| 0 <= k < |list| && list[k] == x;
  }

  /** The walk's part of the listed nodes, past the requested ones, is the
      reachable set without them. */
  lemma WalkedPart(view: set<string>, list: seq<string>, bfs: nat, reach: set<string>)
    requires |view| <= bfs <= |list| && Elems(list[..|view|]) == view && Elems(list[..bfs]) == reach
    requires forall k :: |view| <= k < |list| ==> list[k] !in view
    ensures Elems(list[|view|..bfs]) == reach - view
  {
    ElemsSplit(list[..bfs], |view|);
    assert list[..bfs][..|view|] == list[..|view|] && list[..bfs][|view|..] == list[|view|..bfs];
    forall x | x in Elems(list[|view|..bfs]) ensures x !in view {
      var k :| 0 <= k < |list[|view|..bfs]| && list[|view|..bfs][k] == x;
      assert list[|view| + k] == x;
    }
  }

  /** The outcome of select_recursive, restated through reachability. */
  lemma PassRecursed(view: set<string>, nodes: map<string, Record>, edges: map<string, Record>, dir: Dir,
                     p0: Picked, p: Picked, list: seq<string>, bfs: nat,
                     why: map<string, string>, chain: map<string, seq<string>>)
    requires Wf(nodes, edges) && view <= nodes.Keys && p0.add <= nodes.Keys && view !! p0.add
    requires p.custom == p0.custom
    requires |view| <= bfs <= |list| && Elems(list[..|view|]) == view
    requires p.add == (p0.add + Elems(list)) - view
    requires forall k :: |view| <= k < |list| ==> list[k] in nodes && list[k] !in p0.add + view
    requires p.sel.Keys == p0.sel.Keys + Spreads(nodes, edges, dir, Elems(list[..bfs]))
    requires forall e :: e in Spreads(nodes, edges, dir, Elems(list[..bfs])) ==>
      End(edges[e], Opposite(dir)) in p0.add + Elems(list[..bfs])
    requires Tree(nodes, edges, dir, list[..bfs], |view|, why)
    requires forall k, s :: |view| <= k < |list| && s in Scopes(nodes[list[k]]) && s in nodes ==>
      s in p0.add + Elems(list)
    requires Chained(nodes, list, bfs, |list|, Elems(list[|view|..bfs]), chain)
    ensures Recursed(nodes, edges, dir, view, p0, p)
  {
    var reach := Reach(nodes, edges, dir, view, p0.add);
    WalkIsReach(nodes, edges, dir, view, p0.add, list, bfs, why);
    WalkedPart(view, list, bfs, reach);
    ElemsSplit(list, bfs);
    forall x, s | x in p.add - p0.add && s in Scopes(nodes[x]) && s in nodes ensures s in view + p.add {
      var k := PastView(view, list, x);
    }
    forall x | x in p.add - p0.add - reach
      ensures exists c :: ScopePath(nodes, c) && c[0] in reach - view && c[|c| - 1] == x
    {
      var k := PastView(view, list, x);
      forall i | 0 <= i < bfs ensures list[i] in reach {
        assert list[..bfs][i] == list[i];
      }
      assert ScopePath(nodes, chain[list[k]]);
    }
  }
}
