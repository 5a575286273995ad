/** The clustering tree of a view: the walk that enumerates the scope chains
    of the view's nodes, the merging of chains that start at the same node,
    and the nested tree with its dotted key paths and scope index
    (src/hiearch/hh_node.py, build_tree and add_branch_to_tree). */
module Tree {
  import opened Values

  // ---------------------------------------------------------------------
  // Branches

  /** `nodes[id]['scope']` as the walk reads it after node postprocessing:
      the set of scopes the node sits in, or none. */
  function Frame(nodes: map<string, Record>, id: string): (r: Result<set<string>>)
    ensures r.Err? ==> r.error.Malformed?
  {
    if id !in nodes || "scope" !in nodes[id] then Err(Malformed("node scope"))
    else match nodes[id]["scope"]
      case Null => Ok({})
      case StrSet(s) => Ok(s)
      case _ => Err(Malformed("node scope"))
  }

  /** A branch: distinct nodes of the view, each one a scope of the one
      before it. */
  ghost predicate Chain(nodes: map<string, Record>, view: set<string>, b: seq<string>)
  {
    (forall i :: 0 <= i < |b| ==> b[i] in view) && !HasDuplicates(b) &&
    forall i :: 0 <= i < |b| - 1 ==> Frame(nodes, b[i]).Ok? && b[i + 1] in Frame(nodes, b[i]).value
  }

  /** The nodes of a branch after its first: each is a scope of some node. */
  ghost function Tail(b: seq<string>): set<string>
  {
    set i | 1 <= i < |b| :: b[i]
  }

  /** `branches[b[0]].append(b)` for each recorded branch in turn. */
  ghost function Group(all: seq<seq<string>>): map<string, seq<seq<string>>>
    requires forall j :: 0 <= j < |all| ==> |all[j]| > 0
  {
    if |all| == 0 then map[]
    else
      var g := Group(all[..|all| - 1]);
      var b := all[|all| - 1];
      g[b[0] := (if b[0] in g then g[b[0]] else []) + [b]]
  }

  /** The nodes met below the first position of some recorded branch. */
  ghost function NonLeafOf(all: seq<seq<string>>): set<string>
  {
    if |all| == 0 then {} else NonLeafOf(all[..|all| - 1]) + Tail(all[|all| - 1])
  }

  /** A cycle the walk detects: the branch is a chain and `id`, a scope of
      its last node, is already on it. */
  ghost predicate Cycle(nodes: map<string, Record>, view: set<string>, branch: seq<string>, id: string)
  {
    |branch| > 0 && Chain(nodes, view, branch) && id in branch &&
    Frame(nodes, branch[|branch| - 1]).Ok? && id in Frame(nodes, branch[|branch| - 1]).value
  }

  /** `c` is where some recorded branch starts. */
  ghost predicate Extended(c: seq<string>, all: seq<seq<string>>)
  {
    exists j :: 0 <= j < |all| && |c| <= |all[j]| && all[j][..|c|] == c
  }

  /** No scope of the last node of `c` that belongs to the view is already
      on `c`: going on from `c` meets no cycle. */
  ghost predicate Acyclic(nodes: map<string, Record>, view: set<string>, c: seq<string>)
  {
    |c| > 0 && Frame(nodes, c[|c| - 1]).Ok? ==>
      forall s :: s in Frame(nodes, c[|c| - 1]).value && s in view ==> s !in c
  }

  /** The walk misses nothing: every chain of the view starts a recorded
      branch, and none of them closes a cycle. */
  ghost predicate Complete(nodes: map<string, Record>, view: set<string>, all: seq<seq<string>>)
  {
    forall c {:trigger Extended(c, all)} {:trigger Acyclic(nodes, view, c)} :: |c| > 0 && Chain(nodes, view, c) ==>
      Extended(c, all) && Acyclic(nodes, view, c)
  }

  /** `c` leaves the current branch, at some level, through a scope already
      taken off that level's frame. */
  ghost predicate Behind(c: seq<string>, stack: seq<set<string>>, branch: seq<string>)
    requires |stack| == |branch| + 1
  {
    exists i :: 0 <= i <= |branch| && i < |c| && c[..i] == branch[..i] && c[i] !in stack[i] &&
      (i < |branch| ==> c[i] != branch[i])
  }

  /** What the depth-first walk has covered so far: the chains behind the
      current branch are done, and no scope taken off a frame closed a cycle
      with the branch below it. */
  ghost predicate Explored(nodes: map<string, Record>, view: set<string>, all: seq<seq<string>>,
                           stack: seq<set<string>>, branch: seq<string>)
  {
    |stack| == |branch| + 1 &&
    (forall c {:trigger Behind(c, stack, branch)} :: |c| > 0 && Chain(nodes, view, c) && Behind(c, stack, branch) ==>
      Extended(c, all) && Acyclic(nodes, view, c)) &&
    (forall i, s :: (1 <= i <= |branch| && s !in stack[i] && s in view &&
      Frame(nodes, branch[i - 1]).Ok? && s in Frame(nodes, branch[i - 1]).value) ==> s !in branch[..i])
  }

  /** The completeness part of the outer loop's invariant. */
  ghost predicate Searched(nodes: map<string, Record>, view: set<string>, all: seq<seq<string>>,
                           stack: seq<set<string>>, branch: seq<string>)
  {
    (|stack| == 0 ==> Complete(nodes, view, all)) &&
    (|stack| > 0 ==> Explored(nodes, view, all, stack, branch)) &&
    (|branch| > 0 ==> Extended(branch, all))
  }

  /** What the walk produces: the groups of branches keyed by their first
      node, the nodes that are a scope of another, and the `rank['scope']`
      counter. */
  datatype Branches = Branches(groups: map<string, seq<seq<string>>>, nonleaf: set<string>, rank: nat)

  /** The walk's outcome: every recorded branch is a chain, grouped by its
      first node in order of recording; every chain of the view starts one
      of them and none closes a cycle; the non-leaves are exactly the nodes
      below the first position of some branch; and every node of the view
      starts a group. */
  ghost predicate Enumerated(nodes: map<string, Record>, view: set<string>, all: seq<seq<string>>, res: Branches)
  {
    (forall j :: 0 <= j < |all| ==> |all[j]| > 0 && Chain(nodes, view, all[j])) &&
    Complete(nodes, view, all) &&
    res.groups == Group(all) && res.nonleaf == NonLeafOf(all) && res.groups.Keys == view &&
    GroupsShaped(res.groups)
  }

  /** Each group is a non-empty list of non-empty branches starting at its key. */
  ghost predicate GroupsShaped(groups: map<string, seq<seq<string>>>)
  {
    forall k :: k in groups ==>
      |groups[k]| > 0 &&
      forall j :: 0 <= j < |groups[k]| ==> |groups[k][j]| > 0 && groups[k][j][0] == k
  }

  lemma {:induction false} GroupShape(all: seq<seq<string>>)
    requires forall j :: 0 <= j < |all| ==> |all[j]| > 0
    ensures GroupsShaped(Group(all))
  {
    if |all| > 0 {
      GroupShape(all[..|all| - 1]);
    }
  }

  // ---------------------------------------------------------------------
  // Termination of the walk

  function Pow(b: nat, e: nat): nat
  {
    if e == 0 then 1 else b * Pow(b, e - 1)
  }

  lemma {:induction false} PowPositive(b: nat, e: nat)
    requires b > 0
    ensures Pow(b, e) > 0
  {
    if e > 0 {
      PowPositive(b, e - 1);
    }
  }

  /** The stack read as a number in base `b` with `d` digits: frame `i`
      holding `n` scopes is digit `n + 1`, a missing frame digit 0. */
  ghost function Weight(stack: seq<set<string>>, b: nat, d: nat): nat
    requires |stack| <= d
  {
    if |stack| == 0 then 0
    else Weight(stack[..|stack| - 1], b, d) + (|stack[|stack| - 1]| + 1) * Pow(b, d - |stack|)
  }

  lemma WeightPop(stack: seq<set<string>>, b: nat, d: nat)
    requires 0 < |stack| <= d && b > 0
    ensures Weight(stack[..|stack| - 1], b, d) < Weight(stack, b, d)
  {
    PowPositive(b, d - |stack|);
  }

  /** A climb that did not raise the weight, followed by a pop, lowers it. */
  lemma WeightDrop(climbed: seq<set<string>>, stack0: seq<set<string>>, b: nat, d: nat)
    requires 0 < |climbed| <= d && |stack0| <= d && b > 0
    requires Weight(climbed, b, d) <= Weight(stack0, b, d)
    ensures Weight(climbed[..|climbed| - 1], b, d) < Weight(stack0, b, d)
  {
    WeightPop(climbed, b, d);
  }

  lemma {:induction false} MulLess(x: nat, y: nat, q: nat)
    requires x < y && q > 0
    ensures x * q < y * q
    decreases q
  {
    if q > 1 {
      MulLess(x, y, q - 1);
      assert x * q == x * (q - 1) + x;
      assert y * q == y * (q - 1) + y;
    }
  }

  lemma WeightSnoc(s: seq<set<string>>, top: set<string>, b: nat, d: nat)
    requires |s| + 1 <= d
    ensures Weight(s + [top], b, d) == Weight(s, b, d) + (|top| + 1) * Pow(b, d - |s| - 1)
  {
    assert (s + [top])[..|s|] == s;
  }

  lemma WeightShrink(stack: seq<set<string>>, top: set<string>, b: nat, d: nat)
    requires 0 < |stack| <= d && b > 0 && |top| < |stack[|stack| - 1]|
    ensures Weight(stack[..|stack| - 1] + [top], b, d) < Weight(stack, b, d)
  {
    var init := stack[..|stack| - 1];
    var p := Pow(b, d - |stack|);
    PowPositive(b, d - |stack|);
    WeightSnoc(init, top, b, d);
    assert stack == init + [stack[|stack| - 1]];
    WeightSnoc(init, stack[|stack| - 1], b, d);
    MulLess(|top| + 1, |stack[|stack| - 1]| + 1, p);
  }

  lemma PushArith(w: nat, t: nat, l: nat, f: nat, b: nat, q: nat)
    requires t < l && f + 1 < b && q > 0
    ensures w + (t + 1) * (b * q) + (f + 1) * q < w + (l + 1) * (b * q)
  {
    var p := b * q;
    MulLess(f + 1, b, q);
    assert (t + 2) * p == (t + 1) * p + p;
    if t + 2 < l + 1 {
      MulLess(t + 2, l + 1, p);
    }
  }

  lemma WeightPush(stack: seq<set<string>>, top: set<string>, frame: set<string>, b: nat, d: nat)
    requires 0 < |stack| && |stack| + 1 <= d && |top| < |stack[|stack| - 1]| && |frame| + 1 < b
    ensures Weight(stack[..|stack| - 1] + [top] + [frame], b, d) < Weight(stack, b, d)
  {
    var init := stack[..|stack| - 1];
    var e := d - |stack|;
    var q := Pow(b, e - 1);
    PowPositive(b, e - 1);
    var w := Weight(init, b, d);
    var lo := Weight(init + [top] + [frame], b, d);
    var hi := Weight(stack, b, d);
    assert hi == w + (|stack[|stack| - 1]| + 1) * (b * q);
    WeightSnoc(init, top, b, d);
    WeightSnoc(init + [top], frame, b, d);
    assert lo == w + (|top| + 1) * (b * q) + (|frame| + 1) * q;
    PushArith(w, |top|, |stack[|stack| - 1]|, |frame|, b, q);
  }

  /** The largest scope set among `vs` that can be read. */
  ghost function MaxFrame(nodes: map<string, Record>, vs: set<string>): (m: nat)
    ensures forall v :: v in vs && Frame(nodes, v).Ok? ==> |Frame(nodes, v).value| <= m
    decreases vs
  {
    if vs == {} then 0
    else
      var v :| v in vs;
      var rest := MaxFrame(nodes, vs - {v});
      var here := if Frame(nodes, v).Ok? then |Frame(nodes, v).value| else 0;
      if here > rest then here else rest
  }

  /** A chain is no longer than the view it is drawn from. */
  lemma ChainLength(nodes: map<string, Record>, view: set<string>, b: seq<string>)
    requires Chain(nodes, view, b)
    ensures |b| <= |view|
  {
    DistinctCard(b);
    assert (set x | x in b) <= view;
    SubsetCard((set x | x in b), view);
  }

  lemma SubsetCard(a: set<string>, b: set<string>)
    requires a <= b
    ensures |a| <= |b|
  {
    assert b == a + (b - a);
  }

  // ---------------------------------------------------------------------
  // The walk's invariants

  /** The frame stack mirrors the branch: the bottom frame is what is left
      of the view, frame `i + 1` what is left of the scopes of `branch[i]`. */
  ghost predicate Frames(nodes: map<string, Record>, view: set<string>, m: nat,
                         stack: seq<set<string>>, branch: seq<string>)
  {
    |stack| == |branch| + 1 && stack[0] <= view &&
    (forall i :: 0 <= i < |branch| ==> Frame(nodes, branch[i]).Ok? && stack[i + 1] <= Frame(nodes, branch[i]).value) &&
    (forall i :: 0 <= i < |stack| ==> |stack[i]| <= m)
  }

  ghost predicate Recorded(nodes: map<string, Record>, view: set<string>, all: seq<seq<string>>,
                           groups: map<string, seq<seq<string>>>)
  {
    (forall j :: 0 <= j < |all| ==> |all[j]| > 0 && Chain(nodes, view, all[j])) && groups == Group(all)
  }

  /** At the top of the outer loop. */
  ghost predicate Outer(nodes: map<string, Record>, view: set<string>, m: nat,
                        stack: seq<set<string>>, branch: seq<string>, all: seq<seq<string>>,
                        groups: map<string, seq<seq<string>>>, nonleaf: set<string>, rootLeft: set<string>)
  {
    (|stack| == 0 ==> |branch| == 0 && rootLeft == {}) &&
    (|stack| > 0 ==> Frames(nodes, view, m, stack, branch) && rootLeft == stack[0]) &&
    Chain(nodes, view, branch) && Recorded(nodes, view, all, groups) &&
    nonleaf == NonLeafOf(all) && Tail(branch) <= nonleaf &&
    (forall v :: v in view && v !in rootLeft ==> v in groups) &&
    (|branch| > 0 ==> branch[0] in groups)
  }

  /** Inside the inner loop; `branch0` is the branch the outer iteration
      started with. */
  ghost predicate Inner(nodes: map<string, Record>, view: set<string>, m: nat,
                        stack: seq<set<string>>, branch: seq<string>, all: seq<seq<string>>,
                        groups: map<string, seq<seq<string>>>, nonleaf: set<string>,
                        updated: bool, branch0: seq<string>)
  {
    Frames(nodes, view, m, stack, branch) &&
    Chain(nodes, view, branch) && Recorded(nodes, view, all, groups) &&
    Pending(all, nonleaf, branch, updated, branch0) &&
    Started(view, stack[0], branch, groups, updated)
  }

  /** The non-leaves seen so far: those of the recorded branches and of the
      current one, which is still the starting one unless updated. */
  ghost predicate Pending(all: seq<seq<string>>, nonleaf: set<string>, branch: seq<string>,
                          updated: bool, branch0: seq<string>)
  {
    nonleaf == NonLeafOf(all) + Tail(branch) &&
    (!updated ==> branch == branch0) && Tail(branch0) <= NonLeafOf(all) &&
    (updated ==> |branch| > 0)
  }

  lemma PendingAppend(all: seq<seq<string>>, nonleaf: set<string>, branch: seq<string>,
                      updated: bool, branch0: seq<string>, scope: string,
                      branch': seq<string>, nonleaf': set<string>)
    requires Pending(all, nonleaf, branch, updated, branch0)
    requires branch' == branch + [scope]
    requires nonleaf' == if |branch'| > 1 then nonleaf + {scope} else nonleaf
    ensures Pending(all, nonleaf', branch', true, branch0)
  {
    TailSnoc(branch, scope);
  }

  /** Every node of the view the bottom frame has given up starts a group,
      or starts the branch this iteration is about to record. */
  ghost predicate Started(view: set<string>, rootLeft: set<string>, branch: seq<string>,
                          groups: map<string, seq<seq<string>>>, updated: bool)
  {
    (forall v :: v in view && v !in rootLeft ==> v in groups || (updated && |branch| > 0 && branch[0] == v)) &&
    (|branch| > 0 ==> branch[0] in groups || updated)
  }

  lemma TailSnoc(b: seq<string>, x: string)
    ensures Tail(b + [x]) == Tail(b) + (if |b| >= 1 then {x} else {})
  {
    var b' := b + [x];
    forall y | y in Tail(b') ensures y in Tail(b) + (if |b| >= 1 then {x} else {}) {
      var i :| 1 <= i < |b'| && b'[i] == y;
      if i < |b| {
        assert b[i] == y;
      }
    }
    forall y | y in Tail(b) ensures y in Tail(b') {
      var i :| 1 <= i < |b| && b[i] == y;
      assert b'[i] == y;
    }
    if |b| >= 1 {
      assert b'[|b|] == x;
    }
  }

  lemma TailPrefix(b: seq<string>, n: nat)
    requires n <= |b|
    ensures Tail(b[..n]) <= Tail(b)
  {
    forall y | y in Tail(b[..n]) ensures y in Tail(b) {
      var i :| 1 <= i < n && b[..n][i] == y;
      assert b[i] == y;
    }
  }

  lemma ChainPrefix(nodes: map<string, Record>, view: set<string>, b: seq<string>, n: nat)
    requires Chain(nodes, view, b) && n <= |b|
    ensures Chain(nodes, view, b[..n])
  {
    var p := b[..n];
    assert forall i, j :: 0 <= i < j < |p| ==> p[i] == b[i] && p[j] == b[j];
  }

  lemma ChainSnoc(nodes: map<string, Record>, view: set<string>, b: seq<string>, x: string)
    requires Chain(nodes, view, b) && x in view && x !in b
    requires |b| > 0 ==> Frame(nodes, b[|b| - 1]).Ok? && x in Frame(nodes, b[|b| - 1]).value
    ensures Chain(nodes, view, b + [x])
  {
    var b' := b + [x];
    forall i, j | 0 <= i < j < |b'| ensures b'[i] != b'[j] {
      if j == |b| {
        assert b'[i] == b[i];
      } else {
        assert b'[i] == b[i] && b'[j] == b[j];
      }
    }
    forall i | 0 <= i < |b'| - 1 ensures Frame(nodes, b'[i]).Ok? && b'[i + 1] in Frame(nodes, b'[i]).value {
      if i + 1 < |b| {
        assert b'[i] == b[i] && b'[i + 1] == b[i + 1];
      }
    }
  }

  // ---------------------------------------------------------------------
  // The walk misses no chain

  lemma ExtendedGrow(c: seq<string>, all: seq<seq<string>>, all': seq<seq<string>>)
    requires Extended(c, all) && |all| <= |all'| && all'[..|all|] == all
    ensures Extended(c, all')
  {
    var j :| 0 <= j < |all| && |c| <= |all[j]| && all[j][..|c|] == c;
    assert all'[j] == all[j];
  }

  lemma ExtendedPrefix(c: seq<string>, all: seq<seq<string>>, n: nat)
    requires Extended(c, all) && n <= |c|
    ensures Extended(c[..n], all)
  {
    var j :| 0 <= j < |all| && |c| <= |all[j]| && all[j][..|c|] == c;
    assert all[j][..n] == c[..n];
  }

  /** Before the walk, only the whole view is on the stack, and no chain is
      behind the empty branch. */
  lemma ExploredStart(nodes: map<string, Record>, view: set<string>)
    ensures Explored(nodes, view, [], [view], [])
  {
    forall c | |c| > 0 && Chain(nodes, view, c) ensures !Behind(c, [view], []) {
      assert c[0] in view;
    }
  }

  /** Past its first node, each node of a chain is a scope of the one before. */
  lemma ChainStep(nodes: map<string, Record>, view: set<string>, c: seq<string>, p: seq<string>, i: nat)
    requires Chain(nodes, view, c) && 0 < i < |c| && i <= |p| && c[..i] == p[..i]
    ensures Frame(nodes, p[i - 1]).Ok? && c[i] in Frame(nodes, p[i - 1]).value
  {
    assert c[i - 1] == c[..i][i - 1] == p[..i][i - 1];
  }

  /** A scope outside the view, taken off the top frame, opens no chain. */
  lemma ExploredSkip(nodes: map<string, Record>, view: set<string>, all: seq<seq<string>>,
                     stack: seq<set<string>>, branch: seq<string>, scope: string, stack': seq<set<string>>)
    requires Explored(nodes, view, all, stack, branch)
    requires scope !in view
    requires stack' == stack[..|stack| - 1] + [stack[|stack| - 1] - {scope}]
    ensures Explored(nodes, view, all, stack', branch)
  {
    forall c | |c| > 0 && Chain(nodes, view, c) && Behind(c, stack', branch)
      ensures Extended(c, all) && Acyclic(nodes, view, c)
    {
      var i :| 0 <= i <= |branch| && i < |c| && c[..i] == branch[..i] && c[i] !in stack'[i] &&
        (i < |branch| ==> c[i] != branch[i]);
      assert c[i] in view;
      assert c[i] !in stack[i];
      assert Behind(c, stack, branch);
    }
    forall i, s | 1 <= i <= |branch| && s !in stack'[i] && s in view &&
        Frame(nodes, branch[i - 1]).Ok? && s in Frame(nodes, branch[i - 1]).value
      ensures s !in branch[..i]
    {
      assert s !in stack[i];
    }
  }

  /** A scope of the view, taken off the top frame, extends the branch; the
      chains behind stay behind and no new chain falls behind. */
  lemma ExploredPush(nodes: map<string, Record>, view: set<string>, all: seq<seq<string>>,
                     stack: seq<set<string>>, branch: seq<string>, scope: string, frame: set<string>,
                     stack': seq<set<string>>, branch': seq<string>)
    requires Explored(nodes, view, all, stack, branch)
    requires scope !in branch && Frame(nodes, scope) == Ok(frame)
    requires branch' == branch + [scope]
    requires stack' == stack[..|stack| - 1] + [stack[|stack| - 1] - {scope}] + [frame]
    ensures Explored(nodes, view, all, stack', branch')
  {
    var n := |branch|;
    forall c | |c| > 0 && Chain(nodes, view, c) && Behind(c, stack', branch')
      ensures Extended(c, all) && Acyclic(nodes, view, c)
    {
      var i :| 0 <= i <= |branch'| && i < |c| && c[..i] == branch'[..i] && c[i] !in stack'[i] &&
        (i < |branch'| ==> c[i] != branch'[i]);
      if i == n + 1 {
        ChainStep(nodes, view, c, branch', i);
        assert false;
      } else if i == n {
        assert branch'[..i] == branch;
        assert c[i] !in stack[i];
        assert Behind(c, stack, branch);
      } else {
        assert branch'[..i] == branch[..i];
        assert stack'[i] == stack[i] && branch'[i] == branch[i];
        assert Behind(c, stack, branch);
      }
    }
    forall i, s | 1 <= i <= |branch'| && s !in stack'[i] && s in view &&
        Frame(nodes, branch'[i - 1]).Ok? && s in Frame(nodes, branch'[i - 1]).value
      ensures s !in branch'[..i]
    {
      if i == n + 1 {
        assert false;
      } else {
        assert branch'[..i] == branch[..i] && branch'[i - 1] == branch[i - 1];
        if i < n {
          assert stack'[i] == stack[i];
        }
      }
    }
  }

  /** Dropping an exhausted frame: a chain behind the shorter branch was
      behind the longer one, or is the longer branch itself. */
  lemma BehindLeave(c: seq<string>, stack: seq<set<string>>, branch: seq<string>,
                    stack': seq<set<string>>, branch': seq<string>)
    requires |stack| == |branch| + 1 && |branch| > 0 && stack[|stack| - 1] == {}
    requires stack' == stack[..|stack| - 1] && branch' == branch[..|branch| - 1]
    requires Behind(c, stack', branch')
    ensures Behind(c, stack, branch) || c == branch
  {
    var n := |branch|;
    var i :| 0 <= i <= |branch'| && i < |c| && c[..i] == branch'[..i] && c[i] !in stack'[i] &&
      (i < |branch'| ==> c[i] != branch'[i]);
    assert stack'[i] == stack[i] && branch'[..i] == branch[..i];
    if i < n - 1 {
      assert branch'[i] == branch[i];
      assert Behind(c, stack, branch);
    } else if c[i] != branch[i] {
      assert Behind(c, stack, branch);
    } else if |c| > n {
      assert c[..n] == branch;
      assert Behind(c, stack, branch);
    } else {
      assert c == branch;
    }
  }

  /** The branch whose last frame is exhausted closes no cycle. */
  lemma LeftAcyclic(nodes: map<string, Record>, view: set<string>, all: seq<seq<string>>,
                    stack: seq<set<string>>, branch: seq<string>)
    requires Explored(nodes, view, all, stack, branch) && |branch| > 0
    requires stack[|stack| - 1] == {}
    ensures Acyclic(nodes, view, branch)
  {
    var n := |branch|;
    assert branch[..n] == branch;
    forall s | Frame(nodes, branch[n - 1]).Ok? && s in Frame(nodes, branch[n - 1]).value && s in view
      ensures s !in branch
    {
      assert s !in stack[n];
    }
  }

  /** The chains behind stay done as more branches are recorded. */
  lemma BehindGrow(nodes: map<string, Record>, view: set<string>, all: seq<seq<string>>,
                   all': seq<seq<string>>, stack: seq<set<string>>, branch: seq<string>, c: seq<string>)
    requires Explored(nodes, view, all, stack, branch)
    requires |all| <= |all'| && all'[..|all|] == all
    requires |c| > 0 && Chain(nodes, view, c) && Behind(c, stack, branch)
    ensures Extended(c, all') && Acyclic(nodes, view, c)
  {
    ExtendedGrow(c, all, all');
  }

  /** Dropping an exhausted frame puts the branch itself behind: it starts
      a recorded branch, and every scope of its last node was checked. */
  lemma ExploredLeave(nodes: map<string, Record>, view: set<string>, all: seq<seq<string>>,
                      all': seq<seq<string>>, stack: seq<set<string>>, branch: seq<string>,
                      stack': seq<set<string>>, branch': seq<string>)
    requires Explored(nodes, view, all, stack, branch)
    requires stack[|stack| - 1] == {}
    requires |all| <= |all'| && all'[..|all|] == all
    requires |branch| > 0 ==> Extended(branch, all')
    requires stack' == stack[..|stack| - 1]
    requires branch' == if |branch| > 0 then branch[..|branch| - 1] else branch
    ensures Searched(nodes, view, all', stack', branch')
  {
    var n := |branch|;
    if n > 0 {
      ExtendedPrefix(branch, all', n - 1);
      LeftAcyclic(nodes, view, all, stack, branch);
    }
    if n == 0 {
      forall c | |c| > 0 && Chain(nodes, view, c) ensures Extended(c, all') && Acyclic(nodes, view, c) {
        assert c[..0] == branch[..0];
        BehindGrow(nodes, view, all, all', stack, branch, c);
      }
    } else {
      forall c | |c| > 0 && Chain(nodes, view, c) && Behind(c, stack', branch')
        ensures Extended(c, all') && Acyclic(nodes, view, c)
      {
        BehindLeave(c, stack, branch, stack', branch');
        if c != branch {
          BehindGrow(nodes, view, all, all', stack, branch, c);
        }
      }
      ExploredLeaveChecked(nodes, view, all, stack, branch, stack', branch');
    }
  }

  /** The end of an outer iteration, for the completeness invariant. */
  lemma SearchedLeave(nodes: map<string, Record>, view: set<string>, all0: seq<seq<string>>,
                      all: seq<seq<string>>, climbed: seq<set<string>>, branch1: seq<string>,
                      stack: seq<set<string>>, branch: seq<string>, updated: bool, branch0: seq<string>)
    requires Explored(nodes, view, all0, climbed, branch1) && climbed[|climbed| - 1] == {}
    requires updated ==> all == all0 + [branch1]
    requires !updated ==> all == all0 && branch1 == branch0
    requires |branch0| > 0 ==> Extended(branch0, all0)
    requires stack == climbed[..|climbed| - 1]
    requires branch == if |branch1| > 0 then branch1[..|branch1| - 1] else branch1
    ensures Searched(nodes, view, all, stack, branch)
  {
    assert all[..|all0|] == all0;
    if updated {
      assert all[|all0|][..|branch1|] == branch1;
    }
    ExploredLeave(nodes, view, all0, all, climbed, branch1, stack, branch);
  }

  lemma ExploredLeaveChecked(nodes: map<string, Record>, view: set<string>, all: seq<seq<string>>,
                             stack: seq<set<string>>, branch: seq<string>,
                             stack': seq<set<string>>, branch': seq<string>)
    requires Explored(nodes, view, all, stack, branch) && |branch| > 0
    requires stack' == stack[..|stack| - 1] && branch' == branch[..|branch| - 1]
    ensures forall i, s :: (1 <= i <= |branch'| && s !in stack'[i] && s in view &&
      Frame(nodes, branch'[i - 1]).Ok? && s in Frame(nodes, branch'[i - 1]).value) ==> s !in branch'[..i]
  {
    forall i, s | 1 <= i <= |branch'| && s !in stack'[i] && s in view &&
        Frame(nodes, branch'[i - 1]).Ok? && s in Frame(nodes, branch'[i - 1]).value
      ensures s !in branch'[..i]
    {
      assert stack'[i] == stack[i] && branch'[..i] == branch[..i] && branch'[i - 1] == branch[i - 1];
    }
  }

  /** The outer loop's state is the inner loop's on entry. */
  lemma EnterInner(nodes: map<string, Record>, view: set<string>, m: nat,
                   stack: seq<set<string>>, branch: seq<string>, all: seq<seq<string>>,
                   groups: map<string, seq<seq<string>>>, nonleaf: set<string>, rootLeft: set<string>)
    requires Outer(nodes, view, m, stack, branch, all, groups, nonleaf, rootLeft) && |stack| > 0
    ensures Inner(nodes, view, m, stack, branch, all, groups, nonleaf, false, branch)
  {
  }

  /** A popped scope outside the view is dropped. */
  lemma SkipStep(nodes: map<string, Record>, view: set<string>, m: nat,
                 stack: seq<set<string>>, branch: seq<string>, all: seq<seq<string>>,
                 groups: map<string, seq<seq<string>>>, nonleaf: set<string>,
                 updated: bool, branch0: seq<string>, scope: string, stack': seq<set<string>>)
    requires Inner(nodes, view, m, stack, branch, all, groups, nonleaf, updated, branch0)
    requires scope in stack[|stack| - 1] && scope !in view
    requires stack' == stack[..|stack| - 1] + [stack[|stack| - 1] - {scope}]
    ensures Inner(nodes, view, m, stack', branch, all, groups, nonleaf, updated, branch0)
  {
    assert forall i :: 0 <= i < |stack| - 1 ==> stack'[i] == stack[i];
  }

  /** A popped scope already on the branch is a cycle. */
  lemma CycleStep(nodes: map<string, Record>, view: set<string>, m: nat,
                  stack: seq<set<string>>, branch: seq<string>, all: seq<seq<string>>,
                  groups: map<string, seq<seq<string>>>, nonleaf: set<string>,
                  updated: bool, branch0: seq<string>, scope: string)
    requires Inner(nodes, view, m, stack, branch, all, groups, nonleaf, updated, branch0)
    requires scope in stack[|stack| - 1] && scope in branch
    ensures Cycle(nodes, view, branch, scope)
  {
  }

  lemma FramesPush(nodes: map<string, Record>, view: set<string>, m: nat,
                   stack: seq<set<string>>, branch: seq<string>, scope: string, frame: set<string>,
                   stack': seq<set<string>>, branch': seq<string>)
    requires Frames(nodes, view, m, stack, branch)
    requires m >= MaxFrame(nodes, view)
    requires scope in view && Frame(nodes, scope) == Ok(frame)
    requires branch' == branch + [scope]
    requires stack' == stack[..|stack| - 1] + [stack[|stack| - 1] - {scope}] + [frame]
    ensures Frames(nodes, view, m, stack', branch')
  {
    forall i | 0 <= i < |branch'|
      ensures Frame(nodes, branch'[i]).Ok? && stack'[i + 1] <= Frame(nodes, branch'[i]).value
    {
      if i < |branch| {
        assert branch'[i] == branch[i];
        if i + 1 < |branch| {
          assert stack'[i + 1] == stack[i + 1];
        }
      }
    }
    forall i | 0 <= i < |stack'| ensures |stack'[i]| <= m {
      if i < |stack| - 1 {
        assert stack'[i] == stack[i];
      } else if i == |stack| - 1 {
        SubsetCard(stack'[i], stack[i]);
      }
    }
    if |stack| == 1 {
      assert stack'[0] <= stack[0];
    } else {
      assert stack'[0] == stack[0];
    }
  }

  /** A popped scope of the view extends the branch and opens its own
      scopes as a new frame. */
  lemma AppendStep(nodes: map<string, Record>, view: set<string>, m: nat,
                   stack: seq<set<string>>, branch: seq<string>, all: seq<seq<string>>,
                   groups: map<string, seq<seq<string>>>, nonleaf: set<string>,
                   updated: bool, branch0: seq<string>, scope: string, frame: set<string>,
                   stack': seq<set<string>>, branch': seq<string>, nonleaf': set<string>)
    requires Inner(nodes, view, m, stack, branch, all, groups, nonleaf, updated, branch0)
    requires m >= MaxFrame(nodes, view)
    requires scope in stack[|stack| - 1] && scope in view && scope !in branch
    requires Frame(nodes, scope) == Ok(frame)
    requires branch' == branch + [scope]
    requires nonleaf' == if |branch'| > 1 then nonleaf + {scope} else nonleaf
    requires stack' == stack[..|stack| - 1] + [stack[|stack| - 1] - {scope}] + [frame]
    ensures Inner(nodes, view, m, stack', branch', all, groups, nonleaf', true, branch0)
  {
    ChainSnoc(nodes, view, branch, scope);
    PendingAppend(all, nonleaf, branch, updated, branch0, scope, branch', nonleaf');
    FramesPush(nodes, view, m, stack, branch, scope, frame, stack', branch');
    assert stack'[0] == (if |stack| == 1 then stack[0] - {scope} else stack[0]);
    StartedAppend(view, stack[0], stack'[0], scope, branch, branch', groups, updated);
  }

  lemma StartedAppend(view: set<string>, rootLeft: set<string>, rootLeft': set<string>, scope: string,
                      branch: seq<string>, branch': seq<string>,
                      groups: map<string, seq<seq<string>>>, updated: bool)
    requires Started(view, rootLeft, branch, groups, updated)
    requires branch' == branch + [scope]
    requires rootLeft' == rootLeft || (|branch| == 0 && rootLeft' == rootLeft - {scope})
    ensures Started(view, rootLeft', branch', groups, true)
  {
    if |branch| > 0 {
      assert branch'[0] == branch[0];
    }
  }

  lemma GroupSnoc(all: seq<seq<string>>, b: seq<string>)
    requires forall j :: 0 <= j < |all| ==> |all[j]| > 0
    requires |b| > 0
    ensures Group(all + [b]) == Group(all)[b[0] := (if b[0] in Group(all) then Group(all)[b[0]] else []) + [b]]
    ensures NonLeafOf(all + [b]) == NonLeafOf(all) + Tail(b)
  {
    assert (all + [b])[..|all|] == all;
  }

  /** The end of an outer iteration: an updated branch is recorded, then its
      frame and last node are dropped (the source drops the node at the
      start of the next iteration, which is the same). */
  lemma LeaveStep(nodes: map<string, Record>, view: set<string>, m: nat,
                  stack: seq<set<string>>, branch: seq<string>, all: seq<seq<string>>,
                  groups: map<string, seq<seq<string>>>, nonleaf: set<string>,
                  updated: bool, branch0: seq<string>,
                  all': seq<seq<string>>, groups': map<string, seq<seq<string>>>,
                  stack': seq<set<string>>, branch': seq<string>, rootLeft': set<string>)
    requires Inner(nodes, view, m, stack, branch, all, groups, nonleaf, updated, branch0)
    requires stack[|stack| - 1] == {}
    requires updated ==> (all' == all + [branch] &&
      groups' == groups[branch[0] := (if branch[0] in groups then groups[branch[0]] else []) + [branch]])
    requires !updated ==> all' == all && groups' == groups
    requires stack' == stack[..|stack| - 1]
    requires branch' == if |branch| > 0 then branch[..|branch| - 1] else branch
    requires rootLeft' == if |stack'| > 0 then stack'[0] else {}
    ensures Outer(nodes, view, m, stack', branch', all', groups', nonleaf, rootLeft')
  {
    LeaveFrames(nodes, view, m, stack, branch, stack', branch');
    LeaveRecords(nodes, view, m, stack, branch, all, groups, nonleaf, updated, branch0, all', groups', branch');
  }

  /** Popping the top frame keeps the frames below it. */
  lemma LeaveFrames(nodes: map<string, Record>, view: set<string>, m: nat,
                    stack: seq<set<string>>, branch: seq<string>, stack': seq<set<string>>, branch': seq<string>)
    requires Frames(nodes, view, m, stack, branch) && Chain(nodes, view, branch)
    requires stack' == stack[..|stack| - 1]
    requires branch' == if |branch| > 0 then branch[..|branch| - 1] else branch
    ensures |stack'| == 0 ==> |branch'| == 0 && |branch| == 0
    ensures |stack'| > 0 ==> Frames(nodes, view, m, stack', branch') && stack'[0] == stack[0]
    ensures Chain(nodes, view, branch') && Tail(branch') <= Tail(branch)
  {
    if |branch| > 0 {
      ChainPrefix(nodes, view, branch, |branch| - 1);
      TailPrefix(branch, |branch| - 1);
    }
    assert forall i :: 0 <= i < |stack'| ==> stack'[i] == stack[i];
  }

  /** Recording the branch, if the climb extended it, keeps the records
      and the non-leaves, and every node of the view left behind starts a
      group. */
  lemma LeaveRecords(nodes: map<string, Record>, view: set<string>, m: nat,
                     stack: seq<set<string>>, branch: seq<string>, all: seq<seq<string>>,
                     groups: map<string, seq<seq<string>>>, nonleaf: set<string>,
                     updated: bool, branch0: seq<string>,
                     all': seq<seq<string>>, groups': map<string, seq<seq<string>>>, branch': seq<string>)
    requires Inner(nodes, view, m, stack, branch, all, groups, nonleaf, updated, branch0)
    requires stack[|stack| - 1] == {}
    requires updated ==> (all' == all + [branch] &&
      groups' == groups[branch[0] := (if branch[0] in groups then groups[branch[0]] else []) + [branch]])
    requires !updated ==> all' == all && groups' == groups
    requires branch' == if |branch| > 0 then branch[..|branch| - 1] else branch
    ensures Recorded(nodes, view, all', groups') && nonleaf == NonLeafOf(all')
    ensures forall v :: v in view && v !in stack[0] ==> v in groups'
    ensures |branch| > 0 ==> branch[0] in groups'
  {
    if updated {
      GroupSnoc(all, branch);
    }
  }

  lemma GroupKeys(all: seq<seq<string>>)
    requires forall j :: 0 <= j < |all| ==> |all[j]| > 0
    ensures forall k :: k in Group(all) ==> exists j :: 0 <= j < |all| && all[j][0] == k
  {
    if |all| > 0 {
      GroupKeys(all[..|all| - 1]);
      var init := all[..|all| - 1];
      forall k | k in Group(all) ensures exists j :: 0 <= j < |all| && all[j][0] == k {
        if k != all[|all| - 1][0] {
          assert k in Group(init);
          var j :| 0 <= j < |init| && init[j][0] == k;
          assert all[j] == init[j];
        }
      }
    }
  }

  lemma WalkDone(nodes: map<string, Record>, view: set<string>, m: nat,
                 branch: seq<string>, all: seq<seq<string>>,
                 groups: map<string, seq<seq<string>>>, nonleaf: set<string>, rank: nat)
    requires Outer(nodes, view, m, [], branch, all, groups, nonleaf, {}) && Complete(nodes, view, all)
    ensures Enumerated(nodes, view, all, Branches(groups, nonleaf, rank))
  {
    GroupKeys(all);
    GroupShape(all);
    forall k | k in groups ensures k in view {
      var j :| 0 <= j < |all| && all[j][0] == k;
    }
  }

  /** The inner loop of the walk: pop scopes off the top frame until it is
      empty, extending the branch with every one that belongs to the view
      and opening its scopes as a new frame. */
  method Climb(nodes: map<string, Record>, view: set<string>, ghost m: nat, ghost d: nat,
               stack0: seq<set<string>>, branch0: seq<string>, ghost all: seq<seq<string>>,
               groups: map<string, seq<seq<string>>>, nonleaf0: set<string>, rank0: nat)
    returns (failure: Option<Error>, stack: seq<set<string>>, branch: seq<string>, nonleaf: set<string>,
             rank: nat, updated: bool)
    requires d == |view| + 1 && m >= MaxFrame(nodes, view) + |view|
    requires 0 < |stack0| <= d
    requires Inner(nodes, view, m, stack0, branch0, all, groups, nonleaf0, false, branch0)
    requires Explored(nodes, view, all, stack0, branch0)
    ensures failure.Some? ==>
      failure.value.Malformed? ||
      (failure.value.ScopeCycle? && Cycle(nodes, view, failure.value.branch, failure.value.id))
    ensures failure.None? ==>
      0 < |stack| <= d && stack[|stack| - 1] == {} &&
      Inner(nodes, view, m, stack, branch, all, groups, nonleaf, updated, branch0) &&
      Weight(stack, m + 2, d) <= Weight(stack0, m + 2, d) &&
      Explored(nodes, view, all, stack, branch)
  {
    stack, branch, nonleaf, rank, updated := stack0, branch0, nonleaf0, rank0, false;
    ghost var base := m + 2;
    while |stack[|stack| - 1]| > 0
      invariant 0 < |stack| <= d
      invariant Inner(nodes, view, m, stack, branch, all, groups, nonleaf, updated, branch0)
      invariant Weight(stack, base, d) <= Weight(stack0, base, d)
      invariant Explored(nodes, view, all, stack, branch)
      decreases Weight(stack, base, d)
    {
      var top := stack[|stack| - 1];
      var scope :| scope in top;
      var popped := stack[..|stack| - 1] + [top - {scope}];
      if scope in branch {
        CycleStep(nodes, view, m, stack, branch, all, groups, nonleaf, updated, branch0, scope);
        return Some(ScopeCycle(branch, scope)), stack, branch, nonleaf, rank, updated;
      }
      if scope in view {
        var frame := Frame(nodes, scope);
        if frame.Err? {
          return Some(frame.error), stack, branch, nonleaf, rank, updated;
        }
        rank := rank + 1;
        var branch' := branch + [scope];
        var nonleaf' := if |branch'| > 1 then nonleaf + {scope} else nonleaf;
        var stack' := popped + [frame.value];
        AppendStep(nodes, view, m, stack, branch, all, groups, nonleaf, updated, branch0,
                   scope, frame.value, stack', branch', nonleaf');
        ChainLength(nodes, view, branch');
        WeightPush(stack, top - {scope}, frame.value, base, d);
        ExploredPush(nodes, view, all, stack, branch, scope, frame.value, stack', branch');
        stack, branch, nonleaf, updated := stack', branch', nonleaf', true;
      } else {
        SkipStep(nodes, view, m, stack, branch, all, groups, nonleaf, updated, branch0, scope, popped);
        WeightShrink(stack, top - {scope}, base, d);
        ExploredSkip(nodes, view, all, stack, branch, scope, popped);
        stack := popped;
      }
    }
    failure := None;
  }

  /** One pass of the outer while of the walk: climb from the top of the
      stack until its top scope set is empty, record the branch if the
      climb extended it, then pop. */
  method Visit(nodes: map<string, Record>, view: set<string>, ghost m: nat, ghost d: nat,
               stack0: seq<set<string>>, branch0: seq<string>, ghost all0: seq<seq<string>>,
               groups0: map<string, seq<seq<string>>>, nonleaf0: set<string>, rank0: nat,
               ghost rootLeft0: set<string>)
    returns (failure: Option<Error>, stack: seq<set<string>>, branch: seq<string>, ghost all: seq<seq<string>>,
             groups: map<string, seq<seq<string>>>, nonleaf: set<string>, rank: nat, ghost rootLeft: set<string>)
    requires d == |view| + 1 && m >= MaxFrame(nodes, view) + |view|
    requires 0 < |stack0| <= d && Outer(nodes, view, m, stack0, branch0, all0, groups0, nonleaf0, rootLeft0)
    requires Searched(nodes, view, all0, stack0, branch0)
    ensures failure.Some? ==>
      failure.value.Malformed? ||
      (failure.value.ScopeCycle? && Cycle(nodes, view, failure.value.branch, failure.value.id))
    ensures failure.None? ==>
      |stack| < d && Weight(stack, m + 2, d) < Weight(stack0, m + 2, d) &&
      Outer(nodes, view, m, stack, branch, all, groups, nonleaf, rootLeft) &&
      Searched(nodes, view, all, stack, branch)
  {
    stack, all, groups, rootLeft := stack0, all0, groups0, rootLeft0;
    EnterInner(nodes, view, m, stack0, branch0, all0, groups0, nonleaf0, rootLeft0);
    var climbed, updated;
    failure, climbed, branch, nonleaf, rank, updated := Climb(nodes, view, m, d, stack0, branch0, all0, groups0, nonleaf0, rank0);
    if failure.Some? {
      return;
    }
    WeightDrop(climbed, stack0, m + 2, d);
    if updated {
      all := all0 + [branch];
      groups := groups0[branch[0] := (if branch[0] in groups0 then groups0[branch[0]] else []) + [branch]];
    }
    stack := climbed[..|climbed| - 1];
    var branch1 := branch;
    branch := if |branch1| > 0 then branch1[..|branch1| - 1] else branch1;
    rootLeft := if |stack| > 0 then stack[0] else {};
    LeaveStep(nodes, view, m, climbed, branch1, all0, groups0, nonleaf, updated, branch0,
              all, groups, stack, branch, rootLeft);
    SearchedLeave(nodes, view, all0, all, climbed, branch1, stack, branch, updated, branch0);
  }

  /** The first half of build_tree: a depth-first walk up the scope
      relation from every node of the view, over a stack of scope sets. */
  method EnumerateBranches(nodes: map<string, Record>, view: set<string>)
    returns (r: Result<Branches>, ghost all: seq<seq<string>>)
    ensures r.Ok? ==> Enumerated(nodes, view, all, r.value)
    ensures r.Err? ==> r.error.Malformed? || (r.error.ScopeCycle? && Cycle(nodes, view, r.error.branch, r.error.id))
  {
    ghost var m := MaxFrame(nodes, view) + |view|;
    ghost var d := |view| + 1;
    var stack := [view];
    var branch: seq<string> := [];
    var groups: map<string, seq<seq<string>>> := map[];
    var nonleaf: set<string> := {};
    var rank := 0;
    all := [];
    ghost var rootLeft := view;
    ExploredStart(nodes, view);
    while |stack| > 0
      invariant |stack| <= d
      invariant Outer(nodes, view, m, stack, branch, all, groups, nonleaf, rootLeft)
      invariant Searched(nodes, view, all, stack, branch)
      decreases Weight(stack, m + 2, d)
    {
      var failure;
      failure, stack, branch, all, groups, nonleaf, rank, rootLeft :=
        Visit(nodes, view, m, d, stack, branch, all, groups, nonleaf, rank, rootLeft);
      if failure.Some? {
        return Err(failure.value), all;
      }
    }
    WalkDone(nodes, view, m, branch, all, groups, nonleaf, rank);
    return Ok(Branches(groups, nonleaf, rank)), all;
  }

  // ---------------------------------------------------------------------
  // Merging the branches that start at the same node

  /** `rank[x]` as the walk leaves it: the counter is kept under the literal
      key `'scope'`, so every other node has rank 0. */
  function Rank(count: nat, x: string): nat
  {
    if x == "scope" then count else 0
  }

  /** The `while` that skips the nodes of lower rank. */
  function Advance(branch: seq<string>, node: string, index: nat, count: nat): (i: nat)
    requires index <= |branch|
    ensures index <= i <= |branch|
    ensures forall k :: index <= k < i ==> Rank(count, node) > Rank(count, branch[k])
    ensures i < |branch| ==> Rank(count, node) <= Rank(count, branch[i])
    decreases |branch| - index
  {
    if index < |branch| && Rank(count, node) > Rank(count, branch[index])
    then Advance(branch, node, index + 1, count)
    else index
  }

  /** Where a node missing from the branch is inserted.  As written
      (`guarded` false) the rank comparison reads `branch[index]` even when
      the scan has reached the end of the branch; guarded, the node then
      goes at the end. */
  function Slot(branch: seq<string>, node: string, index: nat, count: nat, guarded: bool): (r: Result<nat>)
    requires index <= |branch|
    ensures r.Ok? ==> index <= r.value <= |branch|
    ensures r.Err? <==> !guarded && Advance(branch, node, index, count) == |branch|
  {
    var i := Advance(branch, node, index, count);
    if i == |branch| && !guarded then Err(Malformed("branch index"))
    else if i < |branch| && Rank(count, node) == Rank(count, branch[i]) && StrLess(branch[i], node) then Ok(i + 1)
    else Ok(i)
  }

  /** Merging `merge[t..]` into `branch`, the scan standing at `index`. */
  function MergeFrom(branch: seq<string>, merge: seq<string>, t: nat, index: nat, count: nat, guarded: bool): Result<seq<string>>
    requires t <= |merge| && index <= |branch|
    decreases |merge| - t
  {
    if t == |merge| then Ok(branch)
    else if index < |branch| && merge[t] == branch[index] then MergeFrom(branch, merge, t + 1, index + 1, count, guarded)
    else
      var s :- Slot(branch, merge[t], index, count, guarded);
      MergeFrom(branch[..s] + [merge[t]] + branch[s..], merge, t + 1, s + 1, count, guarded)
  }

  /** The first branch with every later one of the group merged into it. */
  function Merge(group: seq<seq<string>>, count: nat, guarded: bool): Result<seq<string>>
    requires |group| > 0
  {
    if |group| == 1 then Ok(group[0])
    else
      var b :- Merge(group[..|group| - 1], count, guarded);
      MergeFrom(b, group[|group| - 1], 0, 0, count, guarded)
  }

  /** The union of the nodes of a group of branches. */
  ghost function Union(group: seq<seq<string>>): set<string>
  {
    if |group| == 0 then {} else Union(group[..|group| - 1]) + Elems(group[|group| - 1])
  }

  lemma ElemsInsert(b: seq<string>, s: nat, x: string)
    requires s <= |b|
    ensures Elems(b[..s] + [x] + b[s..]) == Elems(b) + {x}
  {
    assert b == b[..s] + b[s..];
  }

  lemma ElemsDrop(m: seq<string>, t: nat)
    requires t < |m|
    ensures Elems(m[t..]) == {m[t]} + Elems(m[t + 1..])
  {
    assert m[t..] == [m[t]] + m[t + 1..];
  }

  /** Guarded, merging never fails, keeps every node of both branches and
      adds no other, and leaves the node before the scan in place. */
  lemma {:induction false} MergeFromCovers(branch: seq<string>, merge: seq<string>, t: nat, index: nat, count: nat)
    requires t <= |merge| && index <= |branch|
    ensures MergeFrom(branch, merge, t, index, count, true).Ok?
    ensures Elems(MergeFrom(branch, merge, t, index, count, true).value) == Elems(branch) + Elems(merge[t..])
    ensures index > 0 ==> (|MergeFrom(branch, merge, t, index, count, true).value| > 0 &&
      MergeFrom(branch, merge, t, index, count, true).value[0] == branch[0])
    decreases |merge| - t
  {
    if t < |merge| {
      ElemsDrop(merge, t);
      var step := MergeStep(branch, merge, t, index, count, true).value;
      MergeFromStep(branch, merge, t, index, count, step.0, step.1);
      if !(index < |branch| && merge[t] == branch[index]) {
        var s := Slot(branch, merge[t], index, count, true).value;
        ElemsInsert(branch, s, merge[t]);
        if index > 0 {
          assert step.0[0] == branch[0];
        }
      }
      MergeFromCovers(step.0, merge, t + 1, step.1, count);
    } else {
      assert merge[t..] == [];
    }
  }

  /** Guarded, merging a group never fails, yields exactly the nodes of its
      branches, and starts where the group's branches start. */
  lemma {:induction false} MergeCovers(group: seq<seq<string>>, count: nat)
    requires |group| > 0
    requires |group[0]| > 0
    requires forall j :: 0 <= j < |group| ==> |group[j]| > 0 && group[j][0] == group[0][0]
    ensures Merge(group, count, true).Ok?
    ensures Elems(Merge(group, count, true).value) == Union(group)
    ensures |Merge(group, count, true).value| > 0 && Merge(group, count, true).value[0] == group[0][0]
  {
    if |group| == 1 {
      assert group[..0] == [];
    } else {
      var init := group[..|group| - 1];
      MergeCovers(init, count);
      var b := Merge(init, count, true).value;
      var m := group[|group| - 1];
      assert m[0..] == m;
      assert m[0] == b[0];
      MergeFromCovers(b, m, 1, 1, count);
      MergeFromCovers(b, m, 0, 0, count);
    }
  }

  /** The guard changes nothing where the code as written succeeds. */
  lemma {:induction false} GuardAgrees(branch: seq<string>, merge: seq<string>, t: nat, index: nat, count: nat)
    requires t <= |merge| && index <= |branch|
    requires MergeFrom(branch, merge, t, index, count, false).Ok?
    ensures MergeFrom(branch, merge, t, index, count, true) == MergeFrom(branch, merge, t, index, count, false)
    decreases |merge| - t
  {
    if t < |merge| {
      if index < |branch| && merge[t] == branch[index] {
        GuardAgrees(branch, merge, t + 1, index + 1, count);
      } else {
        var s := Slot(branch, merge[t], index, count, false).value;
        GuardAgrees(branch[..s] + [merge[t]] + branch[s..], merge, t + 1, s + 1, count);
      }
    }
  }

  /** As written, the merge fails when a later branch runs past the end of
      the merged one: `[a, c, t]` into `[a, b]` reaches `t` with the scan at
      the end.  Guarded, `t` is appended. */
  lemma MergeRunsPastEnd()
    ensures Merge([["a", "b"], ["a", "c", "t"]], 0, false) == Err(Malformed("branch index"))
    ensures Merge([["a", "b"], ["a", "c", "t"]], 0, true) == Ok(["a", "b", "c", "t"])
  {
    assert StrLess("b", "c");
    var g := [["a", "b"], ["a", "c", "t"]];
    assert g[..1] == [["a", "b"]];
    var m := ["a", "c", "t"];
    assert Slot(["a", "b"], "c", 1, 0, true) == Ok(2);
    var b2 := ["a", "b"][..2] + ["c"] + ["a", "b"][2..];
    assert b2 == ["a", "b", "c"];
    assert Slot(b2, "t", 3, 0, true) == Ok(3);
    assert MergeFrom(b2, m, 2, 3, 0, true) == MergeFrom(b2[..3] + ["t"] + b2[3..], m, 3, 4, 0, true);
    assert b2[..3] + ["t"] + b2[3..] == ["a", "b", "c", "t"];
  }

  /** Once merging a prefix of the group fails, merging the group fails the same way. */
  lemma {:induction false} MergeErrorStops(group: seq<seq<string>>, count: nat, guarded: bool, n: nat)
    requires 0 < n <= |group| && Merge(group[..n], count, guarded).Err?
    ensures Merge(group, count, guarded) == Merge(group[..n], count, guarded)
    decreases |group| - n
  {
    if n < |group| {
      assert group[..n + 1][..n] == group[..n];
      MergeErrorStops(group, count, guarded, n + 1);
    } else {
      assert group[..n] == group;
    }
  }

  /** One turn of the merge loop: the branch and scan position after
      placing `merge[t]`. */
  function MergeStep(branch: seq<string>, merge: seq<string>, t: nat, index: nat, count: nat, guarded: bool)
    : Result<(seq<string>, nat)>
    requires t < |merge| && index <= |branch|
  {
    if index < |branch| && merge[t] == branch[index] then Ok((branch, index + 1))
    else
      var s :- Slot(branch, merge[t], index, count, guarded);
      Ok((branch[..s] + [merge[t]] + branch[s..], s + 1))
  }

  /** The merge goes on from where one turn of the loop leaves it. */
  lemma MergeFromStep(branch: seq<string>, merge: seq<string>, t: nat, index: nat, count: nat,
                      branch': seq<string>, index': nat)
    requires t < |merge| && index <= |branch|
    requires MergeStep(branch, merge, t, index, count, true) == Ok((branch', index'))
    ensures index' <= |branch'|
    ensures MergeFrom(branch, merge, t, index, count, true) == MergeFrom(branch', merge, t + 1, index', count, true)
  {
    if !(index < |branch| && merge[t] == branch[index]) {
      var s := Slot(branch, merge[t], index, count, true).value;
      assert branch' == branch[..s] + [merge[t]] + branch[s..] && index' == s + 1;
    }
  }

  /** Placing a node missing at the scan position: the scan stops at `i`,
      and the node goes there or, for an equal rank and a smaller id, one
      further on, and the scan moves past it. */
  lemma PlaceStep(branch: seq<string>, merge: seq<string>, t: nat, index: nat, count: nat, i: nat)
    requires t < |merge| && index <= |branch| && !(index < |branch| && merge[t] == branch[index])
    requires i == Advance(branch, merge[t], index, count)
    ensures var s := if i < |branch| && Rank(count, merge[t]) == Rank(count, branch[i]) && StrLess(branch[i], merge[t])
                     then i + 1 else i;
      MergeStep(branch, merge, t, index, count, true) == Ok((branch[..s] + [merge[t]] + branch[s..], s + 1))
  {
    var s := if i < |branch| && Rank(count, merge[t]) == Rank(count, branch[i]) && StrLess(branch[i], merge[t])
             then i + 1 else i;
    assert Slot(branch, merge[t], index, count, true) == Ok(s);
  }

  /** The `while` of the merge loop that skips the nodes of lower rank. */
  method Scan(branch: seq<string>, node: string, index0: nat, count: nat) returns (index: nat)
    requires index0 <= |branch|
    ensures index == Advance(branch, node, index0, count)
  {
    index := index0;
    while index < |branch| && Rank(count, node) > Rank(count, branch[index])
      invariant index0 <= index <= |branch|
      invariant Advance(branch, node, index, count) == Advance(branch, node, index0, count)
    {
      index := index + 1;
    }
  }

  /** One turn of the merge loop: the node `merge[t]` is passed over where
      the branch already has it at the scan position, and inserted otherwise;
      the scan moves past it. */
  method Place(branch: seq<string>, merge: seq<string>, t: nat, index0: nat, count: nat)
    returns (merged: seq<string>, index: nat)
    requires t < |merge| && index0 <= |branch|
    ensures MergeStep(branch, merge, t, index0, count, true) == Ok((merged, index))
  {
    var node := merge[t];
    if index0 < |branch| && node == branch[index0] {
      return branch, index0 + 1;
    }
    var i := Scan(branch, node, index0, count);
    PlaceStep(branch, merge, t, index0, count, i);
    var s := if i < |branch| && Rank(count, node) == Rank(count, branch[i]) && StrLess(branch[i], node) then i + 1 else i;
    merged, index := branch[..s] + [node] + branch[s..], s + 1;
  }

  /** One pass of the merge loop of build_tree, placing the nodes of `merge`
      into `branch`; a node whose place lies past the end of the branch goes
      at the end (the guarded merge, see MergeRunsPastEnd). */
  method MergeInto(branch: seq<string>, merge: seq<string>, count: nat) returns (r: seq<string>)
    ensures Ok(r) == MergeFrom(branch, merge, 0, 0, count, true)
  {
    var merged := branch;
    var index: nat := 0;
    var t: nat := 0;
    while t < |merge|
      invariant t <= |merge| && index <= |merged|
      invariant MergeFrom(merged, merge, t, index, count, true) == MergeFrom(branch, merge, 0, 0, count, true)
    {
      var merged', index' := Place(merged, merge, t, index, count);
      MergeFromStep(merged, merge, t, index, count, merged', index');
      merged, index, t := merged', index', t + 1;
    }
    return merged;
  }

  /** The merge of one group: every later branch is merged into the first. */
  method MergeBranches(group: seq<seq<string>>, count: nat) returns (r: seq<string>)
    requires |group| > 0
    ensures Ok(r) == Merge(group, count, true)
  {
    var merged := group[0];
    var j := 1;
    assert group[..1] == [group[0]];
    while j < |group|
      invariant 1 <= j <= |group|
      invariant Merge(group[..j], count, true) == Ok(merged)
    {
      assert group[..j + 1][..j] == group[..j];
      merged := MergeInto(merged, group[j], count);
      j := j + 1;
    }
    assert group[..|group|] == group;
    return merged;
  }

  // ---------------------------------------------------------------------
  // The tree

  /** The nested tree, keyed by position: the entry reached from the top
      through `p[0]`, then `p[1]` in its subtree, and so on, holding its
      `key_path`.  `paths` is `node_key_paths`, `scopes` the scope index. */
  datatype Forest = Forest(tree: map<seq<string>, string>, paths: map<string, set<string>>,
                           scopes: map<string, set<string>>)

  /** Reading a `defaultdict(set)` or a dictionary of sets with a default. */
  function Get<V>(m: map<string, set<V>>, k: string): set<V>
  {
    if k in m then m[k] else {}
  }

  /** The key path an entry at position `p` has once the branch through
      it is added: the one it has, or `p` joined with dots. */
  function KeyPathOf(tree: map<seq<string>, string>, p: seq<string>): string
  {
    if p in tree then tree[p] else Join(".", p)
  }

  /** add_branch_to_tree: the entries along `branch` from position `index`
      are created where missing, each node records its entry's key path, and
      each node records the next one as a scope. */
  function AddBranch(branch: seq<string>, f: Forest, index: nat): Forest
    requires index <= |branch|
    decreases |branch| - index
  {
    if index == |branch| then f
    else
      var node := branch[index];
      var pos := branch[..index + 1];
      var scopes := if index + 1 < |branch| then f.scopes[node := Get(f.scopes, node) + {branch[index + 1]}] else f.scopes;
      var keyPath := KeyPathOf(f.tree, pos);
      var rest := AddBranch(branch, Forest(f.tree[pos := keyPath], f.paths, scopes), index + 1);
      rest.(paths := rest.paths[node := Get(rest.paths, node) + {keyPath}])
  }

  /** The positions along a branch below `index`. */
  ghost function Positions(branch: seq<string>, index: nat): set<seq<string>>
  {
    set i | index < i <= |branch| :: branch[..i]
  }

  /** Every entry's key path is its position joined with dots. */
  ghost predicate Consistent(tree: map<seq<string>, string>)
  {
    forall p :: p in tree ==> |p| > 0 && tree[p] == Join(".", p)
  }

  /** Every entry hangs in the subtree of its parent. */
  ghost predicate PrefixClosed(tree: map<seq<string>, string>)
  {
    forall p, i :: p in tree && 0 < i < |p| ==> p[..i] in tree
  }

  /** The key paths of the positions among `ps` that end at node `x`. */
  ghost function Labelled(ps: set<seq<string>>, tree: map<seq<string>, string>, x: string): set<string>
  {
    set p | p in ps && |p| > 0 && p[|p| - 1] == x :: KeyPathOf(tree, p)
  }

  /** The nodes placed directly below node `x` at the positions among `ps`. */
  ghost function Children(ps: set<seq<string>>, x: string): set<string>
  {
    set p | p in ps && |p| >= 2 && p[|p| - 2] == x :: p[|p| - 1]
  }

  /** A node's key paths are those of the entries it labels. */
  ghost predicate PathsIndex(tree: map<seq<string>, string>, paths: map<string, set<string>>)
  {
    forall x :: Get(paths, x) == Labelled(tree.Keys, tree, x)
  }

  /** A node's scopes are the labels of the children of its entries. */
  ghost predicate ScopesIndex(tree: map<seq<string>, string>, scopes: map<string, set<string>>)
  {
    forall x :: Get(scopes, x) == Children(tree.Keys, x)
  }

  ghost predicate Good(f: Forest)
  {
    Consistent(f.tree) && PrefixClosed(f.tree) && PathsIndex(f.tree, f.paths) && ScopesIndex(f.tree, f.scopes)
  }

  /** Node `x` has a position in the tree. */
  ghost predicate Placed(tree: map<seq<string>, string>, x: string)
  {
    exists p :: p in tree && |p| > 0 && p[|p| - 1] == x
  }

  /** A node with a position has at least one key path. */
  lemma PlacedHasPath(f: Forest, x: string)
    requires Good(f) && Placed(f.tree, x)
    ensures Get(f.paths, x) != {}
  {
    var p :| p in f.tree && |p| > 0 && p[|p| - 1] == x;
    assert KeyPathOf(f.tree, p) in Labelled(f.tree.Keys, f.tree, x);
  }

  /** Every node of a view that BuildTree places has a non-empty set of key
      paths. */
  lemma BuiltPathsNonEmpty(f: Forest, view: set<string>)
    requires Good(f) && forall x {:trigger Placed(f.tree, x)} :: x in view ==> Placed(f.tree, x)
    ensures forall x :: x in view ==> Get(f.paths, x) != {}
  {
    forall x | x in view ensures Get(f.paths, x) != {} {
      PlacedHasPath(f, x);
    }
  }

  lemma LabelledUnion(a: set<seq<string>>, b: set<seq<string>>, tree: map<seq<string>, string>, x: string)
    ensures Labelled(a + b, tree, x) == Labelled(a, tree, x) + Labelled(b, tree, x)
  {
  }

  lemma LabelledSame(ps: set<seq<string>>, t1: map<seq<string>, string>, t2: map<seq<string>, string>, x: string)
    requires forall p :: p in ps ==> KeyPathOf(t1, p) == KeyPathOf(t2, p)
    ensures Labelled(ps, t1, x) == Labelled(ps, t2, x)
  {
  }

  lemma ChildrenUnion(a: set<seq<string>>, b: set<seq<string>>, x: string)
    ensures Children(a + b, x) == Children(a, x) + Children(b, x)
  {
  }

  lemma PositionsNext(branch: seq<string>, index: nat)
    requires index < |branch|
    ensures Positions(branch, index) == {branch[..index + 1]} + Positions(branch, index + 1)
  {
  }

  /** The forest the recursive call of add_branch_to_tree starts from. */
  function Descend(branch: seq<string>, f: Forest, index: nat): Forest
    requires index < |branch|
  {
    var node := branch[index];
    var pos := branch[..index + 1];
    var scopes := if index + 1 < |branch| then f.scopes[node := Get(f.scopes, node) + {branch[index + 1]}] else f.scopes;
    Forest(f.tree[pos := KeyPathOf(f.tree, pos)], f.paths, scopes)
  }

  /** One level of add_branch_to_tree, unfolded: the entries and scopes. */
  lemma AddBranchUnfold(branch: seq<string>, f: Forest, index: nat)
    requires index < |branch|
    ensures AddBranch(branch, f, index).tree == AddBranch(branch, Descend(branch, f, index), index + 1).tree
    ensures AddBranch(branch, f, index).scopes == AddBranch(branch, Descend(branch, f, index), index + 1).scopes
  {
  }

  /** One level of add_branch_to_tree, unfolded: the key paths of node `x`. */
  lemma AddBranchUnfoldPaths(branch: seq<string>, f: Forest, index: nat, x: string)
    requires index < |branch|
    ensures Get(AddBranch(branch, f, index).paths, x) ==
      Get(AddBranch(branch, Descend(branch, f, index), index + 1).paths, x) +
      (if branch[index] == x then {KeyPathOf(f.tree, branch[..index + 1])} else {})
  {
  }

  lemma KeyPathKept(tree: map<seq<string>, string>, pos: seq<string>)
    ensures forall p :: KeyPathOf(tree[pos := KeyPathOf(tree, pos)], p) == KeyPathOf(tree, p)
  {
  }

  /** Recording a position's own key path changes no label. */
  lemma LabelledKept(ps: set<seq<string>>, tree: map<seq<string>, string>, pos: seq<string>, x: string)
    ensures Labelled(ps, tree[pos := KeyPathOf(tree, pos)], x) == Labelled(ps, tree, x)
  {
    KeyPathKept(tree, pos);
    LabelledSame(ps, tree[pos := KeyPathOf(tree, pos)], tree, x);
  }

  lemma PositionsEnd(branch: seq<string>, index: nat)
    requires |branch| <= index
    ensures Positions(branch, index) == {}
  {
  }

  /** From position `index` on, a branch adds exactly its remaining
      positions, and every entry gets the key path it had or the one its
      position spells. */
  ghost predicate Grown(branch: seq<string>, f: Forest, index: nat)
    requires index <= |branch|
  {
    var t := AddBranch(branch, f, index).tree;
    t.Keys == f.tree.Keys + Positions(branch, index) &&
    forall p :: p in t ==> t[p] == KeyPathOf(f.tree, p)
  }

  /** One step of AddBranchTree, from its claim about the next level. */
  lemma AddBranchTreeStep(branch: seq<string>, f: Forest, index: nat)
    requires index < |branch| && Grown(branch, Descend(branch, f, index), index + 1)
    ensures Grown(branch, f, index)
  {
    AddBranchUnfold(branch, f, index);
    PositionsNext(branch, index);
    KeyPathKept(f.tree, branch[..index + 1]);
  }

  /** The entries a branch adds, and the key paths they get. */
  lemma {:induction false} AddBranchTree(branch: seq<string>, f: Forest, index: nat)
    requires index <= |branch|
    ensures Grown(branch, f, index)
    decreases |branch| - index
  {
    if index < |branch| {
      AddBranchTree(branch, Descend(branch, f, index), index + 1);
      AddBranchTreeStep(branch, f, index);
    } else {
      PositionsEnd(branch, index);
    }
  }

  lemma LabelledAt(pos: seq<string>, tree: map<seq<string>, string>, x: string)
    requires |pos| > 0
    ensures Labelled({pos}, tree, x) == if pos[|pos| - 1] == x then {KeyPathOf(tree, pos)} else {}
  {
  }

  /** One step of AddBranchPaths, from its claim about the next level. */
  lemma AddBranchPathsStep(branch: seq<string>, f: Forest, index: nat, x: string)
    requires index < |branch|
    requires Get(AddBranch(branch, Descend(branch, f, index), index + 1).paths, x) ==
      Get(f.paths, x) + Labelled(Positions(branch, index + 1), Descend(branch, f, index).tree, x)
    ensures Get(AddBranch(branch, f, index).paths, x) == Get(f.paths, x) + Labelled(Positions(branch, index), f.tree, x)
  {
    var pos := branch[..index + 1];
    AddBranchUnfoldPaths(branch, f, index, x);
    PositionsNext(branch, index);
    LabelledKept(Positions(branch, index + 1), f.tree, pos, x);
    LabelledUnion({pos}, Positions(branch, index + 1), f.tree, x);
    LabelledAt(pos, f.tree, x);
  }

  /** The key paths a branch records for its nodes. */
  lemma {:induction false} AddBranchPaths(branch: seq<string>, f: Forest, index: nat, x: string)
    requires index <= |branch|
    ensures Get(AddBranch(branch, f, index).paths, x) == Get(f.paths, x) + Labelled(Positions(branch, index), f.tree, x)
    decreases |branch| - index
  {
    if index < |branch| {
      AddBranchPaths(branch, Descend(branch, f, index), index + 1, x);
      AddBranchPathsStep(branch, f, index, x);
    } else {
      PositionsEnd(branch, index);
    }
  }

  lemma ChildrenAt(q: seq<string>, x: string)
    requires |q| >= 2
    ensures Children({q}, x) == if q[|q| - 2] == x then {q[|q| - 1]} else {}
  {
  }

  /** One step of AddBranchScopes, from its claim about the next level. */
  lemma AddBranchScopesStep(branch: seq<string>, f: Forest, index: nat, x: string)
    requires index < |branch|
    requires Get(AddBranch(branch, Descend(branch, f, index), index + 1).scopes, x) ==
      Get(Descend(branch, f, index).scopes, x) + Children(Positions(branch, index + 2), x)
    ensures Get(AddBranch(branch, f, index).scopes, x) == Get(f.scopes, x) + Children(Positions(branch, index + 1), x)
  {
    AddBranchUnfold(branch, f, index);
    if index + 1 < |branch| {
      PositionsNext(branch, index + 1);
      var q := branch[..index + 2];
      ChildrenUnion({q}, Positions(branch, index + 2), x);
      ChildrenAt(q, x);
      assert q[|q| - 2] == branch[index] && q[|q| - 1] == branch[index + 1];
    } else {
      PositionsEnd(branch, index + 1);
      PositionsEnd(branch, index + 2);
    }
  }

  lemma AddBranchScopesEnd(branch: seq<string>, f: Forest, index: nat, x: string)
    requires index == |branch|
    ensures Get(AddBranch(branch, f, index).scopes, x) == Get(f.scopes, x) + Children(Positions(branch, index + 1), x)
  {
    PositionsEnd(branch, index + 1);
    assert Children({}, x) == {};
  }

  /** The scopes a branch records for its nodes. */
  lemma {:induction false} AddBranchScopes(branch: seq<string>, f: Forest, index: nat, x: string)
    requires index <= |branch|
    ensures Get(AddBranch(branch, f, index).scopes, x) == Get(f.scopes, x) + Children(Positions(branch, index + 1), x)
    decreases |branch| - index
  {
    if index < |branch| {
      AddBranchScopes(branch, Descend(branch, f, index), index + 1, x);
      AddBranchScopesStep(branch, f, index, x);
    } else {
      AddBranchScopesEnd(branch, f, index, x);
    }
  }

  lemma PrefixOfPrefix(branch: seq<string>, i: nat, k: nat)
    requires k <= i <= |branch|
    ensures branch[..i][..k] == branch[..k]
  {
  }

  lemma RootTreeShape(branch: seq<string>, f: Forest)
    requires Consistent(f.tree) && PrefixClosed(f.tree)
    ensures Consistent(AddBranch(branch, f, 0).tree) && PrefixClosed(AddBranch(branch, f, 0).tree)
  {
    AddBranchTree(branch, f, 0);
    var r := AddBranch(branch, f, 0);
    forall p | p in r.tree ensures |p| > 0 && r.tree[p] == Join(".", p) {
      if p !in f.tree {
        var i :| 0 < i <= |branch| && p == branch[..i];
      }
    }
    forall p, k | p in r.tree && 0 < k < |p| ensures p[..k] in r.tree {
      if p !in f.tree {
        var i :| 0 < i <= |branch| && p == branch[..i];
        PrefixOfPrefix(branch, i, k);
        assert p[..k] in Positions(branch, 0);
      }
    }
  }

  lemma RootPaths(branch: seq<string>, f: Forest)
    requires PathsIndex(f.tree, f.paths)
    ensures PathsIndex(AddBranch(branch, f, 0).tree, AddBranch(branch, f, 0).paths)
  {
    AddBranchTree(branch, f, 0);
    var r := AddBranch(branch, f, 0);
    forall x ensures Get(r.paths, x) == Labelled(r.tree.Keys, r.tree, x) {
      AddBranchPaths(branch, f, 0, x);
      LabelledSame(f.tree.Keys, f.tree, r.tree, x);
      LabelledSame(Positions(branch, 0), f.tree, r.tree, x);
      LabelledUnion(f.tree.Keys, Positions(branch, 0), r.tree, x);
    }
  }

  /** The first position of a branch has no parent entry. */
  lemma ChildrenFromRoot(branch: seq<string>, x: string)
    ensures Children(Positions(branch, 0), x) == Children(Positions(branch, 1), x)
  {
    if |branch| > 0 {
      PositionsNext(branch, 0);
      ChildrenUnion({branch[..1]}, Positions(branch, 1), x);
      assert Children({branch[..1]}, x) == {};
    } else {
      PositionsEnd(branch, 0);
      PositionsEnd(branch, 1);
    }
  }

  lemma RootScopesAt(branch: seq<string>, f: Forest, x: string)
    requires Get(f.scopes, x) == Children(f.tree.Keys, x)
    ensures Get(AddBranch(branch, f, 0).scopes, x) == Children(AddBranch(branch, f, 0).tree.Keys, x)
  {
    AddBranchTree(branch, f, 0);
    AddBranchScopes(branch, f, 0, x);
    ChildrenUnion(f.tree.Keys, Positions(branch, 0), x);
    ChildrenFromRoot(branch, x);
  }

  lemma RootScopes(branch: seq<string>, f: Forest)
    requires ScopesIndex(f.tree, f.scopes)
    ensures ScopesIndex(AddBranch(branch, f, 0).tree, AddBranch(branch, f, 0).scopes)
  {
    var r := AddBranch(branch, f, 0);
    forall x ensures Get(r.scopes, x) == Children(r.tree.Keys, x) {
      RootScopesAt(branch, f, x);
    }
  }

  /** Adding a whole branch from the top keeps the tree well formed and
      adds exactly the positions along it. */
  lemma AddRootBranch(branch: seq<string>, f: Forest)
    requires Good(f)
    ensures Good(AddBranch(branch, f, 0))
    ensures AddBranch(branch, f, 0).tree.Keys == f.tree.Keys + Positions(branch, 0)
  {
    AddBranchTree(branch, f, 0);
    RootTreeShape(branch, f);
    RootPaths(branch, f);
    RootScopes(branch, f);
  }
  // ---------------------------------------------------------------------
  // build_tree

  /** `branch.reverse()`: the merged branch, read from its outermost scope. */
  function Reverse(s: seq<string>): (r: seq<string>)
    ensures |r| == |s| && forall i :: 0 <= i < |s| ==> r[i] == s[|s| - 1 - i]
  {
    if |s| == 0 then [] else Reverse(s[1..]) + [s[0]]
  }

  /** The positions the merged, reversed branches put into the tree. */
  ghost predicate Covers(tree: map<seq<string>, string>, merged: map<string, seq<string>>)
  {
    forall p :: p in tree <==> exists k :: k in merged && p in Positions(Reverse(merged[k]), 0)
  }

  ghost predicate CoversSome(tree: map<seq<string>, string>, merged: map<string, seq<string>>, done: set<string>)
  {
    forall p :: p in tree <==> exists k :: k in done && k in merged && p in Positions(Reverse(merged[k]), 0)
  }

  const EmptyForest := Forest(map[], map[], map[])

  lemma EmptyGood()
    ensures Good(EmptyForest)
  {
  }

  /** Adding the positions of a branch to the tree extends what it covers by
      those of group `k`. */
  lemma CoversStepAt(t: map<seq<string>, string>, t0: map<seq<string>, string>,
                     merged: map<string, seq<string>>, done: set<string>, k: string, branch: seq<string>,
                     p: seq<string>)
    requires CoversSome(t0, merged, done) && k !in merged
    requires t.Keys == t0.Keys + Positions(Reverse(branch), 0)
    ensures p in t <==> (exists j :: j in done + {k} && j in merged[k := branch] &&
                                     p in Positions(Reverse(merged[k := branch][j]), 0))
  {
    var m := merged[k := branch];
    if p in t0 {
      var j :| j in done && j in merged && p in Positions(Reverse(merged[j]), 0);
      assert j in done + {k} && j in m && p in Positions(Reverse(m[j]), 0);
    } else if p in Positions(Reverse(branch), 0) {
      assert k in done + {k} && k in m && p in Positions(Reverse(m[k]), 0);
    } else {
      forall j | j in done + {k} && j in m ensures p !in Positions(Reverse(m[j]), 0) {
        if j != k {
          assert m[j] == merged[j];
        }
      }
    }
  }

  lemma CoversStep(t: map<seq<string>, string>, t0: map<seq<string>, string>,
                   merged: map<string, seq<string>>, done: set<string>, k: string, branch: seq<string>)
    requires CoversSome(t0, merged, done) && k !in merged
    requires t.Keys == t0.Keys + Positions(Reverse(branch), 0)
    ensures CoversSome(t, merged[k := branch], done + {k})
  {
    forall p ensures p in t <==> (exists j :: j in done + {k} && j in merged[k := branch] &&
                                              p in Positions(Reverse(merged[k := branch][j]), 0))
    {
      CoversStepAt(t, t0, merged, done, k, branch, p);
    }
  }

  lemma CoversSkip(f: Forest, merged: map<string, seq<string>>, done: set<string>, k: string)
    requires CoversSome(f.tree, merged, done) && k !in merged
    ensures CoversSome(f.tree, merged, done + {k})
  {
  }

  lemma CoversAll(f: Forest, merged: map<string, seq<string>>, done: set<string>)
    requires CoversSome(f.tree, merged, done) && merged.Keys <= done
    ensures Covers(f.tree, merged)
  {
  }

  /** The groups outside `rest` are merged, except those whose key is a non-leaf. */
  ghost predicate MergedSoFar(b: Branches, rest: set<string>, merged: map<string, seq<string>>)
  {
    GroupsShaped(b.groups) && rest <= b.groups.Keys && merged.Keys == b.groups.Keys - rest - b.nonleaf &&
    (forall k :: k in merged ==> Merge(b.groups[k], b.rank, true) == Ok(merged[k]))
  }

  /** The loop over the groups, with the groups of `rest` still to do. */
  ghost predicate Progress(b: Branches, rest: set<string>, f: Forest, merged: map<string, seq<string>>)
  {
    MergedSoFar(b, rest, merged) && Good(f) && CoversSome(f.tree, merged, b.groups.Keys - rest)
  }

  lemma KeysStep(all: set<string>, rest: set<string>, nonleaf: set<string>, keys: set<string>, key: string)
    requires rest <= all && keys == all - rest - nonleaf && key in rest && key !in nonleaf
    ensures keys + {key} == all - (rest - {key}) - nonleaf
    ensures all - rest + {key} == all - (rest - {key})
  {
  }

  lemma MergedStep(b: Branches, rest: set<string>, merged: map<string, seq<string>>, key: string, branch: seq<string>)
    requires MergedSoFar(b, rest, merged) && key in rest && key !in b.nonleaf
    requires Merge(b.groups[key], b.rank, true) == Ok(branch)
    ensures MergedSoFar(b, rest - {key}, merged[key := branch])
  {
    var m' := merged[key := branch];
    KeysStep(b.groups.Keys, rest, b.nonleaf, merged.Keys, key);
    assert m'.Keys == merged.Keys + {key};
    forall k | k in m' ensures Merge(b.groups[k], b.rank, true) == Ok(m'[k]) {
      if k != key {
        assert m'[k] == merged[k];
      }
    }
  }

  lemma ProgressSkip(b: Branches, rest: set<string>, f: Forest, merged: map<string, seq<string>>, key: string)
    requires Progress(b, rest, f, merged) && key in rest && key in b.nonleaf
    ensures Progress(b, rest - {key}, f, merged)
  {
    assert b.groups.Keys - rest + {key} == b.groups.Keys - (rest - {key});
    CoversSkip(f, merged, b.groups.Keys - rest, key);
  }

  lemma ProgressAdd(b: Branches, rest: set<string>, f: Forest, merged: map<string, seq<string>>, key: string,
                    branch: seq<string>)
    requires Progress(b, rest, f, merged) && key in rest && key !in b.nonleaf
    requires Merge(b.groups[key], b.rank, true) == Ok(branch)
    ensures Progress(b, rest - {key}, AddBranch(Reverse(branch), f, 0), merged[key := branch])
  {
    var f' := AddBranch(Reverse(branch), f, 0);
    MergedStep(b, rest, merged, key, branch);
    AddRootBranch(Reverse(branch), f);
    CoversStep(f'.tree, f.tree, merged, b.groups.Keys - rest, key, branch);
    KeysStep(b.groups.Keys, rest, b.nonleaf, merged.Keys, key);
  }

  /** The work of one iteration over the groups. */
  method AddGroup(b: Branches, key: string, ghost rest: set<string>, f: Forest, ghost merged: map<string, seq<string>>)
    returns (r: Forest, ghost merged': map<string, seq<string>>)
    requires key in rest && Progress(b, rest, f, merged) && |b.groups[key]| > 0
    ensures Progress(b, rest - {key}, r, merged')
  {
    merged' := merged;
    if key in b.nonleaf {
      ProgressSkip(b, rest, f, merged, key);
      return f, merged';
    }
    var branch := MergeBranches(b.groups[key], b.rank);
    merged' := merged[key := branch];
    ProgressAdd(b, rest, f, merged, key, branch);
    r := AddBranch(Reverse(branch), f, 0);
  }

  lemma ProgressDone(b: Branches, f: Forest, merged: map<string, seq<string>>)
    requires Progress(b, {}, f, merged)
    ensures merged.Keys == b.groups.Keys - b.nonleaf
    ensures forall k :: k in merged ==> Merge(b.groups[k], b.rank, true) == Ok(merged[k])
    ensures Good(f) && Covers(f.tree, merged)
  {
    CoversAll(f, merged, b.groups.Keys);
  }

  /** The second half of build_tree: each group whose first node is not a
      scope of another node of the view is merged into one branch, which is
      reversed and added to the tree.  The order of the groups is left open;
      the result does not depend on it. */
  method AddGroups(b: Branches) returns (r: Forest, ghost merged: map<string, seq<string>>)
    requires GroupsShaped(b.groups)
    ensures merged.Keys == b.groups.Keys - b.nonleaf
    ensures forall k :: k in merged ==> Merge(b.groups[k], b.rank, true) == Ok(merged[k])
    ensures Good(r) && Covers(r.tree, merged)
  {
    var rest := b.groups.Keys;
    var f := EmptyForest;
    merged := map[];
    EmptyGood();
    while rest != {}
      invariant Progress(b, rest, f, merged)
      decreases rest
    {
      var key :| key in rest;
      f, merged := AddGroup(b, key, rest, f, merged);
      rest := rest - {key};
    }
    ProgressDone(b, f, merged);
    return f, merged;
  }

  /** build_tree(nodes, nodes_view): the tree of the view, the key paths of
      every node and the scope index. */
  method BuildTree(nodes: map<string, Record>, view: set<string>)
    returns (r: Result<Forest>, ghost all: seq<seq<string>>, b: Branches, ghost merged: map<string, seq<string>>)
    ensures r.Err? ==> r.error.Malformed? || (r.error.ScopeCycle? && Cycle(nodes, view, r.error.branch, r.error.id))
    ensures r.Ok? ==>
      Enumerated(nodes, view, all, b) &&
      merged.Keys == view - b.nonleaf &&
      (forall k :: k in merged ==> Merge(b.groups[k], b.rank, true) == Ok(merged[k])) &&
      Good(r.value) && Covers(r.value.tree, merged) &&
      forall x {:trigger Placed(r.value.tree, x)} :: x in view ==> Placed(r.value.tree, x)
  {
    var walk;
    walk, all := EnumerateBranches(nodes, view);
    if walk.Err? {
      return Err(walk.error), all, Branches(map[], {}, 0), map[];
    }
    b := walk.value;
    var f;
    f, merged := AddGroups(b);
    forall x | x in view ensures Placed(f.tree, x) {
      ViewNodeInTree(nodes, view, all, b, f, merged, x);
    }
    r := Ok(f);
  }

  /** Every node of a branch that is merged and added has a position in the
      tree. */
  lemma MergedNodePlaced(f: Forest, merged: map<string, seq<string>>, k: string, x: string)
    requires Covers(f.tree, merged) && k in merged && x in merged[k]
    ensures Placed(f.tree, x)
  {
    var rb := Reverse(merged[k]);
    var i :| 0 <= i < |merged[k]| && merged[k][i] == x;
    var j := |merged[k]| - 1 - i;
    var p := rb[..j + 1];
    assert p in Positions(rb, 0);
    assert p in f.tree;
    assert p[|p| - 1] == x;
  }

  /** A group of leaf-first branches that all start at `k` keeps, once merged
      and added, every node of every one of them in the tree. */
  lemma GroupNodesInTree(f: Forest, merged: map<string, seq<string>>, group: seq<seq<string>>,
                         count: nat, k: string, x: string)
    requires Good(f) && Covers(f.tree, merged) && k in merged
    requires |group| > 0 && |group[0]| > 0
    requires Merge(group, count, true) == Ok(merged[k])
    requires forall j :: 0 <= j < |group| ==> |group[j]| > 0 && group[j][0] == group[0][0]
    requires x in Union(group)
    ensures Placed(f.tree, x)
  {
    MergeCovers(group, count);
    assert x in Elems(merged[k]);
    MergedNodePlaced(f, merged, k, x);
  }

  /** A non-leaf sits below the first position of some recorded branch. */
  lemma {:induction false} NonLeafFrom(all: seq<seq<string>>, w: string)
    requires w in NonLeafOf(all)
    ensures exists j, i :: 0 <= j < |all| && 1 <= i < |all[j]| && all[j][i] == w
  {
    var init := all[..|all| - 1];
    if w in NonLeafOf(init) {
      NonLeafFrom(init, w);
      var j, i :| 0 <= j < |init| && 1 <= i < |init[j]| && init[j][i] == w;
      assert all[j] == init[j];
    } else {
      var i :| 1 <= i < |all[|all| - 1]| && all[|all| - 1][i] == w;
    }
  }

  /** Every recorded branch is in the group of its first node. */
  lemma {:induction false} GroupHas(all: seq<seq<string>>, j: nat)
    requires forall j :: 0 <= j < |all| ==> |all[j]| > 0
    requires j < |all|
    ensures all[j][0] in Group(all)
    ensures exists t :: 0 <= t < |Group(all)[all[j][0]]| && Group(all)[all[j][0]][t] == all[j]
  {
    var init := all[..|all| - 1];
    var last := all[|all| - 1];
    var g := Group(init);
    if j == |all| - 1 {
      var old_ := if last[0] in g then g[last[0]] else [];
      assert Group(all)[last[0]] == old_ + [last];
      assert Group(all)[last[0]][|old_|] == last;
    } else {
      assert all[j] == init[j];
      GroupHas(init, j);
      var t :| 0 <= t < |g[init[j][0]]| && g[init[j][0]][t] == init[j];
      if init[j][0] == last[0] {
        assert Group(all)[last[0]] == g[last[0]] + [last];
        assert Group(all)[last[0]][t] == all[j];
      } else {
        assert Group(all)[all[j][0]] == g[all[j][0]];
      }
    }
  }

  lemma {:induction false} UnionHas(group: seq<seq<string>>, t: nat, x: string)
    requires t < |group| && x in group[t]
    ensures x in Union(group)
  {
    if t < |group| - 1 {
      assert group[..|group| - 1][t] == group[t];
      UnionHas(group[..|group| - 1], t, x);
    }
  }

  /** After a complete walk, a node that is a scope of the first node of a
      chain is not on that chain. */
  lemma NotOnChain(nodes: map<string, Record>, view: set<string>, all: seq<seq<string>>,
                   c: seq<string>, u: string)
    requires Complete(nodes, view, all) && |c| > 0 && Chain(nodes, view, c)
    requires Frame(nodes, u).Ok? && c[0] in Frame(nodes, u).value
    ensures u !in c
  {
    forall k | 0 <= k < |c| ensures c[k] != u {
      ChainPrefix(nodes, view, c, k + 1);
      var d := c[..k + 1];
      assert d[0] == c[0] && d[k] == c[k];
      assert Acyclic(nodes, view, d);
    }
  }

  lemma ChainCons(nodes: map<string, Record>, view: set<string>, u: string, c: seq<string>)
    requires |c| > 0 && Chain(nodes, view, c) && u in view && u !in c
    requires Frame(nodes, u).Ok? && c[0] in Frame(nodes, u).value
    ensures Chain(nodes, view, [u] + c)
  {
    var c' := [u] + c;
    forall i, j | 0 <= i < j < |c'| ensures c'[i] != c'[j] {
      if i > 0 {
        assert c'[i] == c[i - 1] && c'[j] == c[j - 1];
      } else {
        assert c'[j] == c[j - 1];
      }
    }
    forall i | 0 <= i < |c'| - 1 ensures Frame(nodes, c'[i]).Ok? && c'[i + 1] in Frame(nodes, c'[i]).value {
      if i > 0 {
        assert c'[i] == c[i - 1] && c'[i + 1] == c[i];
      }
    }
  }

  /** Going down the scope relation from the first node of a chain ends at a
      leaf: some recorded branch that starts at a leaf holds the chain's last
      node. */
  lemma {:induction false} LeafBelow(nodes: map<string, Record>, view: set<string>, all: seq<seq<string>>,
                                     c: seq<string>)
    requires forall j :: 0 <= j < |all| ==> |all[j]| > 0 && Chain(nodes, view, all[j])
    requires Complete(nodes, view, all)
    requires |c| > 0 && Chain(nodes, view, c)
    ensures exists j :: 0 <= j < |all| && all[j][0] !in NonLeafOf(all) && c[|c| - 1] in all[j]
    decreases |view| - |c|
  {
    ChainLength(nodes, view, c);
    assert Extended(c, all);
    if c[0] !in NonLeafOf(all) {
      var j :| 0 <= j < |all| && |c| <= |all[j]| && all[j][..|c|] == c;
      assert all[j][0] == c[0] && all[j][|c| - 1] == c[|c| - 1];
    } else {
      NonLeafFrom(all, c[0]);
      var j, i :| 0 <= j < |all| && 1 <= i < |all[j]| && all[j][i] == c[0];
      var u := all[j][i - 1];
      assert Frame(nodes, u).Ok? && c[0] in Frame(nodes, u).value;
      NotOnChain(nodes, view, all, c, u);
      ChainCons(nodes, view, u, c);
      ChainLength(nodes, view, [u] + c);
      LeafBelow(nodes, view, all, [u] + c);
      assert ([u] + c)[|c|] == c[|c| - 1];
    }
  }

  /** The tree property of build_tree: every node of the view gets a
      non-empty set of key paths. */
  lemma ViewNodeInTree(nodes: map<string, Record>, view: set<string>, all: seq<seq<string>>, b: Branches,
                       f: Forest, merged: map<string, seq<string>>, x: string)
    requires Enumerated(nodes, view, all, b)
    requires merged.Keys == view - b.nonleaf
    requires forall k :: k in merged ==> Merge(b.groups[k], b.rank, true) == Ok(merged[k])
    requires Good(f) && Covers(f.tree, merged) && x in view
    ensures Placed(f.tree, x)
  {
    assert Chain(nodes, view, [x]);
    LeafBelow(nodes, view, all, [x]);
    var j :| 0 <= j < |all| && all[j][0] !in NonLeafOf(all) && x in all[j];
    var k := all[j][0];
    GroupHas(all, j);
    var t :| 0 <= t < |Group(all)[k]| && Group(all)[k][t] == all[j];
    UnionHas(b.groups[k], t, x);
    GroupNodesInTree(f, merged, b.groups[k], b.rank, k, x);
  }

  /** Where the merge as written succeeds, the guarded merge gives the same branch. */
  lemma {:induction false} MergeGuardAgrees(group: seq<seq<string>>, count: nat)
    requires |group| > 0 && Merge(group, count, false).Ok?
    ensures Merge(group, count, true) == Merge(group, count, false)
  {
    if |group| > 1 {
      var init := group[..|group| - 1];
      MergeGuardAgrees(init, count);
      GuardAgrees(Merge(init, count, false).value, group[|group| - 1], 0, 0, count);
    }
  }
}
