/** The breadth-first exploration engine of src/model_checker.rs, as values.

    The engine keeps every discovered state in an arena of `Pending` nodes;
    a node names the action that produced it and the arena index of the node
    it was produced from.  The FIFO worklist holds arena indices and the
    seen-set holds 64-bit fingerprints.  `Search` is one snapshot of those
    three; the functions below say how one proposal, one action and one
    expansion change it, and the predicates state the invariants that the
    imperative engine (module Checker) keeps. */
module Explore {

  /** The digest `hash` returns. */
  newtype u64 = x: int | 0 <= x < 0x1_0000_0000_0000_0000

  const U64Count: int := 0x1_0000_0000_0000_0000

  datatype Option<+T> = None | Some(value: T)

  /** A discovered state, the name of the action that produced it and the
      arena index of the node it was produced from (None for an initial state). */
  datatype Pending<S> = Pending(generatedBy: string, parent: Option<nat>, state: S)

  /** What one invocation of an action yields from the popped state: the
      states its `there_exists` calls build, in iteration order, and the copy
      it mutated directly. */
  datatype Effect<S> = Effect(branches: seq<S>, direct: S)

  datatype Action<!S> = Action(name: string, apply: S -> Effect<S>)

  datatype Invariant<!S> = Invariant(name: string, holds: S -> bool)

  /** The failing invariant's name and the behaviour that reaches the failing state. */
  datatype Report<S> = Report(violated: string, behavior: seq<(string, S)>)

  datatype Outcome<S> = Exhausted | Violated(report: Report<S>)

  datatype Search<S> = Search(nodes: seq<Pending<S>>, queue: seq<nat>, seen: set<u64>)

  /** The synthetic name of the node a run starts from. */
  const InitName: string := "Init"

  /** The states an action offers from `s`, in the order the engine
      fingerprints them: the branches during the call, the direct copy after it. */
  function Successors<S>(a: Action<S>, s: S): seq<S>
  {
    a.apply(s).branches + [a.apply(s).direct]
  }

  /** The candidates `there_exists(xs, f)` builds: `f` applied to a clone of
      the same state `s` for every element, in iteration order. */
  function Branches<S, V>(s: S, xs: seq<V>, f: (S, V) -> S): seq<S>
  {
    seq(|xs|, k requires 0 <= k < |xs| => f(s, xs[k]))
  }

  /** The rule that takes an already built branch state as it is. */
  function Keep<S>(s: S, branch: S): S
  {
    branch
  }

  lemma BranchesKeep<S>(s: S, xs: seq<S>)
    ensures Branches(s, xs, Keep) == xs
  {
    forall k | 0 <= k < |xs| ensures Branches(s, xs, Keep)[k] == xs[k] {
      assert Keep(s, xs[k]) == xs[k];
    }
  }

  lemma BranchesSnoc<S, V>(s: S, xs: seq<V>, f: (S, V) -> S, j: nat)
    requires j < |xs|
    ensures Branches(s, xs[..j + 1], f) == Branches(s, xs[..j], f) + [f(s, xs[j])]
  {
  }


  // ---------------------------------------------------------------------
  // Proposing states

  /** A produced state is enqueued exactly when its fingerprint is unseen,
      and its fingerprint is recorded at the same moment. */
  function Offer<S>(g: Search<S>, fp: S -> u64, s: S, name: string, parent: nat): Search<S>
  {
    if fp(s) in g.seen then g
    else Search(g.nodes + [Pending(name, Some(parent), s)], g.queue + [|g.nodes|], g.seen + {fp(s)})
  }

  function OfferAll<S>(g: Search<S>, fp: S -> u64, ss: seq<S>, name: string, parent: nat): Search<S>
    decreases |ss|
  {
    if ss == [] then g
    else Offer(OfferAll(g, fp, ss[..|ss| - 1], name, parent), fp, ss[|ss| - 1], name, parent)
  }

  /** Every action, in registration order, applied to the same popped state `s`
      of node `c`. */
  function ExpandAll<S>(g: Search<S>, fp: S -> u64, acts: seq<Action<S>>, c: nat, s: S): Search<S>
    decreases |acts|
  {
    if acts == [] then g
    else
      var a := acts[|acts| - 1];
      OfferAll(ExpandAll(g, fp, acts[..|acts| - 1], c, s), fp, Successors(a, s), a.name, c)
  }

  function Pop<S>(g: Search<S>): Search<S>
    requires g.queue != []
  {
    g.(queue := g.queue[1..])
  }

  /** What `run` does before its loop: record the initial fingerprint and
      enqueue an "Init" node without parent. */
  function Seed<S>(g: Search<S>, fp: S -> u64, init: S): Search<S>
  {
    Search(g.nodes + [Pending(InitName, None, init)], g.queue + [|g.nodes|], g.seen + {fp(init)})
  }

  // ---------------------------------------------------------------------
  // Invariants

  predicate InvariantsHold<S>(invs: seq<Invariant<S>>, s: S)
  {
    forall j :: 0 <= j < |invs| ==> invs[j].holds(s)
  }

  /** The index of the first invariant, in registration order, that `s` violates. */
  function FirstFailing<S>(invs: seq<Invariant<S>>, s: S): (r: Option<nat>)
    ensures r.None? <==> InvariantsHold(invs, s)
    ensures r.Some? ==> r.value < |invs| && !invs[r.value].holds(s) && InvariantsHold(invs[..r.value], s)
    decreases |invs|
  {
    if invs == [] then None
    else if !invs[0].holds(s) then Some(0)
    else
      match FirstFailing(invs[1..], s)
      case None => None
      case Some(k) =>
        assert forall j :: 0 <= j < k ==> invs[1..][..k][j] == invs[..k + 1][j + 1];
        Some(k + 1)
  }

  /** The first failing invariant is the first one, in order, that fails. */
  lemma {:induction false} FirstFailingAt<S>(invs: seq<Invariant<S>>, s: S, k: nat)
    requires k < |invs| && InvariantsHold(invs[..k], s) && !invs[k].holds(s)
    ensures FirstFailing(invs, s) == Some(k)
    decreases k
  {
    if k > 0 {
      assert invs[..k] == [invs[0]] + invs[1..][..k - 1];
      FirstFailingAt(invs[1..], s, k - 1);
    }
  }

  // ---------------------------------------------------------------------
  // The arena as a tree and the behaviours it records

  predicate LinksBack<S>(n: Pending<S>, i: nat)
  {
    match n.parent
    case None => n.generatedBy == InitName
    case Some(p) => p < i
  }

  /** Every node's parent was created before it; parentless nodes are "Init" nodes. */
  ghost predicate Tree<S>(nodes: seq<Pending<S>>)
  {
    forall i :: 0 <= i < |nodes| ==> LinksBack(nodes[i], i)
  }

  /** The length of the parent chain from node `i` back to its root. */
  ghost function Depth<S>(nodes: seq<Pending<S>>, i: nat): (d: nat)
    requires Tree(nodes) && i < |nodes|
    ensures d >= 1
    decreases i
  {
    assert LinksBack(nodes[i], i);
    match nodes[i].parent
    case None => 1
    case Some(p) => 1 + Depth(nodes, p)
  }

  /** The (action name, state) pairs from the root of node `i`'s chain to `i`. */
  ghost function Behavior<S>(nodes: seq<Pending<S>>, i: nat): (b: seq<(string, S)>)
    requires Tree(nodes) && i < |nodes|
    ensures |b| == Depth(nodes, i)
    ensures b[|b| - 1] == (nodes[i].generatedBy, nodes[i].state)
    ensures b[0].0 == InitName
    decreases i
  {
    assert LinksBack(nodes[i], i);
    match nodes[i].parent
    case None => [(nodes[i].generatedBy, nodes[i].state)]
    case Some(p) => Behavior(nodes, p) + [(nodes[i].generatedBy, nodes[i].state)]
  }

  function Reversed<T>(s: seq<T>): (r: seq<T>)
    ensures |r| == |s| && forall k :: 0 <= k < |s| ==> r[k] == s[|s| - 1 - k]
  {
    if s == [] then [] else Reversed(s[1..]) + [s[0]]
  }

  lemma ReversedSnoc<T>(s: seq<T>, x: T)
    ensures Reversed(s + [x]) == [x] + Reversed(s)
  {
    assert forall k :: 0 <= k < |s| + 1 ==> Reversed(s + [x])[k] == ([x] + Reversed(s))[k];
  }

  /** `build_behavior`: walk the parent links, collecting the pairs, and reverse. */
  method BuildBehavior<S>(nodes: seq<Pending<S>>, i: nat) returns (steps: seq<(string, S)>)
    requires Tree(nodes) && i < |nodes|
    ensures steps == Behavior(nodes, i)
  {
    var collected := [(nodes[i].generatedBy, nodes[i].state)];
    var previous: Option<nat> := nodes[i].parent;
    assert LinksBack(nodes[i], i);
    while previous.Some?
      invariant previous.Some? ==> previous.value < |nodes|
      invariant Behavior(nodes, i) == Ancestry(nodes, previous) + Reversed(collected)
      decreases match previous case None => 0 case Some(p) => p + 1
    {
      var p := previous.value;
      assert LinksBack(nodes[p], p);
      ReversedSnoc(collected, (nodes[p].generatedBy, nodes[p].state));
      collected := collected + [(nodes[p].generatedBy, nodes[p].state)];
      previous := nodes[p].parent;
    }
    steps := Reversed(collected);
  }

  /** The behaviour of an optional parent: empty above a root. */
  ghost function Ancestry<S>(nodes: seq<Pending<S>>, previous: Option<nat>): seq<(string, S)>
    requires Tree(nodes) && (previous.Some? ==> previous.value < |nodes|)
  {
    match previous
    case None => []
    case Some(p) => Behavior(nodes, p)
  }

  // ---------------------------------------------------------------------
  // Invariants of the engine's state

  /** The fingerprints of all arena nodes. */
  ghost function Prints<S>(fp: S -> u64, nodes: seq<Pending<S>>): set<u64>
    decreases |nodes|
  {
    if nodes == [] then {} else Prints(fp, nodes[..|nodes| - 1]) + {fp(nodes[|nodes| - 1].state)}
  }

  /** A node that has a parent never shares its fingerprint with an earlier node. */
  ghost predicate Fresh<S>(fp: S -> u64, nodes: seq<Pending<S>>)
  {
    forall i :: 0 <= i < |nodes| && nodes[i].parent.Some? ==> fp(nodes[i].state) !in Prints(fp, nodes[..i])
  }

  /** Some registered action called `name` yields `s` from `from`. */
  ghost predicate Produces<S>(acts: seq<Action<S>>, from: S, name: string, s: S)
  {
    exists k :: 0 <= k < |acts| && acts[k].name == name && s in Successors(acts[k], from)
  }

  /** Every node with a parent is a successor of its parent under the action it names. */
  ghost predicate Produced<S>(acts: seq<Action<S>>, nodes: seq<Pending<S>>)
  {
    forall i :: 0 <= i < |nodes| && nodes[i].parent.Some? && nodes[i].parent.value < i ==>
      Produces(acts, nodes[nodes[i].parent.value].state, nodes[i].generatedBy, nodes[i].state)
  }

  /** The index of the first node still queued (|nodes| when the queue is empty). */
  function Head<S>(g: Search<S>): int
  {
    |g.nodes| - |g.queue|
  }

  /** The facts that hold at every point of a run whose initial node is `root`. */
  ghost predicate Core<S>(g: Search<S>, fp: S -> u64, acts: seq<Action<S>>, root: nat)
  {
    && Tree(g.nodes)
    && g.seen == Prints(fp, g.nodes)
    && Fresh(fp, g.nodes)
    && Produced(acts, g.nodes)
    && root <= Head(g)
    && Rooted(g.nodes, root)
    // the queue holds exactly the nodes not yet processed, in discovery order
    && QueueIsTail(g)
    // discovery order is breadth-first order
    && Ordered(g.nodes, root)
  }

  /** The run's initial node has no parent; every later node has a parent in the run. */
  ghost predicate Rooted<S>(nodes: seq<Pending<S>>, root: nat)
  {
    && (root < |nodes| ==> nodes[root].parent.None?)
    && forall i :: root < i < |nodes| ==> nodes[i].parent.Some? && root <= nodes[i].parent.value
  }

  /** The queue is the tail of the arena from `Head(g)` on. */
  ghost predicate QueueIsTail<S>(g: Search<S>)
  {
    forall k :: 0 <= k < |g.queue| ==> g.queue[k] == Head(g) + k
  }

  /** Depths never decrease along the arena from the run's root on. */
  ghost predicate Ordered<S>(nodes: seq<Pending<S>>, root: nat)
    requires Tree(nodes)
  {
    forall i, j :: root <= i < j < |nodes| ==> Depth(nodes, i) <= Depth(nodes, j)
  }

  ghost predicate Layered<S>(nodes: seq<Pending<S>>, root: nat, c: int)
    requires Tree(nodes) && 0 <= c < |nodes|
  {
    forall j :: root <= j < |nodes| ==> Depth(nodes, j) <= Depth(nodes, c) + 1
  }

  /** The invariant between two steps. */
  ghost predicate BetweenSteps<S>(g: Search<S>, fp: S -> u64, acts: seq<Action<S>>, root: nat)
  {
    Core(g, fp, acts, root) && (g.queue != [] ==> Layered(g.nodes, root, Head(g)))
  }

  /** The invariant while node `c`, just popped, is being expanded. */
  ghost predicate Expanding<S>(g: Search<S>, fp: S -> u64, acts: seq<Action<S>>, root: nat, c: nat)
  {
    Core(g, fp, acts, root) && root <= c && c + 1 == Head(g) && Layered(g.nodes, root, c)
  }

  /** Node state `s` passes every invariant and all its successors are fingerprinted. */
  ghost predicate Expanded<S>(s: S, fp: S -> u64, acts: seq<Action<S>>, invs: seq<Invariant<S>>, seen: set<u64>)
  {
    && InvariantsHold(invs, s)
    && forall k :: 0 <= k < |acts| ==> AllSeen(fp, Successors(acts[k], s), seen)
  }

  /** Every state of `ss` has its fingerprint in `seen`. */
  ghost predicate AllSeen<S>(fp: S -> u64, ss: seq<S>, seen: set<u64>)
  {
    forall i :: 0 <= i < |ss| ==> fp(ss[i]) in seen
  }

  /** Nodes lo .. hi-1 have been processed. */
  ghost predicate Closed<S>(g: Search<S>, fp: S -> u64, acts: seq<Action<S>>, invs: seq<Invariant<S>>, lo: nat, hi: int)
  {
    forall i :: lo <= i < hi && i < |g.nodes| ==> Expanded(g.nodes[i].state, fp, acts, invs, g.seen)
  }

  /** Every node of the run with the fingerprint of `t` is at most one level
      deeper than node `i`. */
  ghost predicate Near<S>(nodes: seq<Pending<S>>, fp: S -> u64, root: nat, i: nat, t: S)
    requires Tree(nodes) && i < |nodes|
  {
    forall n :: root <= n < |nodes| && fp(nodes[n].state) == fp(t) ==> Depth(nodes, n) <= Depth(nodes, i) + 1
  }

  /** Nodes root .. hi-1 have every successor on a node at most one level
      deeper than themselves: breadth-first order reaches states in the order
      of their distance from the initial one. */
  ghost predicate Shallow<S>(nodes: seq<Pending<S>>, fp: S -> u64, acts: seq<Action<S>>, root: nat, hi: int)
  {
    && Tree(nodes)
    && forall i, k, j :: root <= i < hi && i < |nodes| && 0 <= k < |acts| && 0 <= j < |Successors(acts[k], nodes[i].state)| ==>
         Near(nodes, fp, root, i, Successors(acts[k], nodes[i].state)[j])
  }

  /** `r` is `g` after some proposals: the arena and the seen-set only grow,
      each new node came with exactly one new fingerprint and one queue entry. */
  ghost predicate Extends<S>(g: Search<S>, r: Search<S>)
  {
    && Grown(g, r)
    && |r.seen| - |r.nodes| == |g.seen| - |g.nodes|
    && |r.queue| - |r.nodes| == |g.queue| - |g.nodes|
  }

  /** The arena of `r` extends that of `g` and its seen-set includes that of `g`. */
  ghost predicate Grown<S>(g: Search<S>, r: Search<S>)
  {
    && |g.nodes| <= |r.nodes|
    && r.nodes[..|g.nodes|] == g.nodes
    && g.seen <= r.seen
  }

  /** A behaviour of the registered actions from `init`. */
  ghost predicate Execution<S>(acts: seq<Action<S>>, init: S, trace: seq<(string, S)>)
  {
    && |trace| > 0
    && trace[0] == (InitName, init)
    && forall j :: 0 < j < |trace| ==> Produces(acts, trace[j - 1].1, trace[j].0, trace[j].1)
  }

  /** The report names the first invariant, in registration order, that the
      last state of its behaviour violates. */
  ghost predicate FailsFirst<S>(invs: seq<Invariant<S>>, r: Report<S>)
  {
    && |r.behavior| > 0
    && var f := FirstFailing(invs, r.behavior[|r.behavior| - 1].1);
       f.Some? && invs[f.value].name == r.violated
  }

  // ---------------------------------------------------------------------
  // Lemmas

  lemma {:induction false} DepthAppend<S>(nodes: seq<Pending<S>>, n: Pending<S>, i: nat)
    requires Tree(nodes + [n]) && i < |nodes|
    ensures Tree(nodes) && Depth(nodes + [n], i) == Depth(nodes, i)
    decreases i
  {
    assert forall j :: 0 <= j < |nodes| ==> (nodes + [n])[j] == nodes[j];
    assert LinksBack(nodes[i], i);
    match nodes[i].parent
    case None =>
    case Some(p) => DepthAppend(nodes, n, p);
  }

  lemma {:induction false} PrintsHas<S>(fp: S -> u64, nodes: seq<Pending<S>>, i: nat)
    requires i < |nodes|
    ensures fp(nodes[i].state) in Prints(fp, nodes)
    decreases |nodes|
  {
    if i < |nodes| - 1 {
      PrintsHas(fp, nodes[..|nodes| - 1], i);
    }
  }

  lemma {:induction false} PrintsWitness<S>(fp: S -> u64, nodes: seq<Pending<S>>, h: u64) returns (i: nat)
    requires h in Prints(fp, nodes)
    ensures i < |nodes| && fp(nodes[i].state) == h
    decreases |nodes|
  {
    if h == fp(nodes[|nodes| - 1].state) {
      i := |nodes| - 1;
    } else {
      i := PrintsWitness(fp, nodes[..|nodes| - 1], h);
    }
  }

  /** Registering another action keeps every recorded step explained. */
  lemma ProducedGrows<S>(acts: seq<Action<S>>, a: Action<S>, nodes: seq<Pending<S>>)
    requires Produced(acts, nodes)
    ensures Produced(acts + [a], nodes)
  {
    forall i | 0 <= i < |nodes| && nodes[i].parent.Some? && nodes[i].parent.value < i
      ensures Produces(acts + [a], nodes[nodes[i].parent.value].state, nodes[i].generatedBy, nodes[i].state)
    {
      var k :| 0 <= k < |acts| && acts[k].name == nodes[i].generatedBy
        && nodes[i].state in Successors(acts[k], nodes[nodes[i].parent.value].state);
      assert (acts + [a])[k] == acts[k];
    }
  }

  /** A fresh engine satisfies the invariant. */
  lemma EmptyIsBetweenSteps<S>(fp: S -> u64, acts: seq<Action<S>>)
    ensures BetweenSteps(Search([], [], {}), fp, acts, 0)
  {
  }

  /** Seeding a run on an idle engine starts a run rooted at the new node. */
  lemma {:induction false} SeedStartsRun<S>(g: Search<S>, fp: S -> u64, acts: seq<Action<S>>, root: nat, init: S)
    requires BetweenSteps(g, fp, acts, root) && g.queue == []
    ensures var r := Seed(g, fp, init);
      && BetweenSteps(r, fp, acts, |g.nodes|)
      && r.queue == [|g.nodes|] && r.nodes[|g.nodes|] == Pending(InitName, None, init)
      && fp(init) in r.seen && Grown(g, r)
  {
    var r := Seed(g, fp, init);
    AppendRoot(g.nodes, fp, acts, init);
    assert r.nodes[..|g.nodes|] == g.nodes;
    assert Core(r, fp, acts, |g.nodes|);
  }

  /** A parentless node appended to the arena keeps it a tree whose
      non-initial nodes are fresh and produced by the actions. */
  lemma AppendRoot<S>(nodes: seq<Pending<S>>, fp: S -> u64, acts: seq<Action<S>>, init: S)
    requires Tree(nodes) && Fresh(fp, nodes) && Produced(acts, nodes)
    ensures var r := nodes + [Pending(InitName, None, init)];
      Tree(r) && Fresh(fp, r) && Produced(acts, r)
  {
    var r := nodes + [Pending(InitName, None, init)];
    assert Tree(r) by {
      forall i | 0 <= i < |r| ensures LinksBack(r[i], i) {
        if i < |nodes| { assert LinksBack(nodes[i], i); }
      }
    }
    assert Fresh(fp, r) by {
      forall i | 0 <= i < |r| && r[i].parent.Some?
        ensures fp(r[i].state) !in Prints(fp, r[..i])
      {
        assert i < |nodes| && r[..i] == nodes[..i];
      }
    }
    assert Produced(acts, r) by {
      forall i | 0 <= i < |r| && r[i].parent.Some? && r[i].parent.value < i
        ensures Produces(acts, r[r[i].parent.value].state, r[i].generatedBy, r[i].state)
      {
        assert i < |nodes|;
      }
    }
  }

  /** Popping the head of the queue starts its expansion. */
  lemma PopStartsExpansion<S>(g: Search<S>, fp: S -> u64, acts: seq<Action<S>>, root: nat)
    requires BetweenSteps(g, fp, acts, root) && g.queue != []
    ensures g.queue[0] == Head(g) && Expanding(Pop(g), fp, acts, root, g.queue[0])
    ensures Extends(g, Pop(g).(queue := g.queue))
  {
    assert Pop(g).nodes[..|g.nodes|] == g.nodes;
  }

  /** Once every action ran on node `c`, the engine is between steps again. */
  lemma ExpansionEnds<S>(g: Search<S>, fp: S -> u64, acts: seq<Action<S>>, root: nat, c: nat)
    requires Expanding(g, fp, acts, root, c)
    ensures BetweenSteps(g, fp, acts, root)
  {
    if g.queue != [] {
      assert Depth(g.nodes, c) <= Depth(g.nodes, c + 1);
    }
  }

  lemma AppendTree<S>(nodes: seq<Pending<S>>, n: Pending<S>)
    requires Tree(nodes) && LinksBack(n, |nodes|)
    ensures Tree(nodes + [n])
  {
    forall i | 0 <= i < |nodes| + 1 ensures LinksBack((nodes + [n])[i], i) {
      if i < |nodes| { assert LinksBack(nodes[i], i); }
    }
  }

  lemma AppendFresh<S>(fp: S -> u64, nodes: seq<Pending<S>>, n: Pending<S>)
    requires Fresh(fp, nodes) && fp(n.state) !in Prints(fp, nodes)
    ensures Fresh(fp, nodes + [n])
  {
    var r := nodes + [n];
    forall i | 0 <= i < |r| && r[i].parent.Some?
      ensures fp(r[i].state) !in Prints(fp, r[..i])
    {
      assert r[..i] == if i == |nodes| then nodes else nodes[..i];
    }
  }

  lemma AppendProduced<S>(acts: seq<Action<S>>, nodes: seq<Pending<S>>, c: nat, k: nat, s: S)
    requires Produced(acts, nodes) && c < |nodes| && k < |acts| && s in Successors(acts[k], nodes[c].state)
    ensures Produced(acts, nodes + [Pending(acts[k].name, Some(c), s)])
  {
    var r := nodes + [Pending(acts[k].name, Some(c), s)];
    forall i | 0 <= i < |r| && r[i].parent.Some? && r[i].parent.value < i
      ensures Produces(acts, r[r[i].parent.value].state, r[i].generatedBy, r[i].state)
    {
      if i == |nodes| {
        assert acts[k].name == r[i].generatedBy && s in Successors(acts[k], r[c].state);
      } else {
        assert r[i] == nodes[i] && r[r[i].parent.value] == nodes[nodes[i].parent.value];
      }
    }
  }

  /** Appending a child of `c` keeps discovery order breadth-first when no
      node is deeper than one level below `c`. */
  lemma AppendLayered<S>(nodes: seq<Pending<S>>, root: nat, c: nat, n: Pending<S>)
    requires Tree(nodes) && root <= c < |nodes| && n.parent == Some(c)
    requires Ordered(nodes, root)
    requires Layered(nodes, root, c)
    ensures Tree(nodes + [n])
    ensures Ordered(nodes + [n], root)
    ensures Layered(nodes + [n], root, c)
  {
    var r := nodes + [n];
    AppendTree(nodes, n);
    forall i | 0 <= i < |nodes| ensures Depth(r, i) == Depth(nodes, i) {
      DepthAppend(nodes, n, i);
    }
    assert Depth(r, |nodes|) == Depth(nodes, c) + 1;
  }

  /** One proposal from the node being expanded keeps the invariant: the new
      node, if any, is a genuine successor, has a new fingerprint, and is one
      level deeper than its parent, so discovery order stays breadth-first. */
  lemma OfferKeepsExpanding<S>(g: Search<S>, fp: S -> u64, acts: seq<Action<S>>, root: nat, c: nat, k: nat, s: S)
    requires Expanding(g, fp, acts, root, c)
    requires k < |acts| && s in Successors(acts[k], g.nodes[c].state)
    ensures Expanding(Offer(g, fp, s, acts[k].name, c), fp, acts, root, c)
  {
    if fp(s) !in g.seen {
      AppendKeepsExpanding(g, fp, acts, root, c, k, s);
    }
  }

  lemma AppendKeepsExpanding<S>(g: Search<S>, fp: S -> u64, acts: seq<Action<S>>, root: nat, c: nat, k: nat, s: S)
    requires Expanding(g, fp, acts, root, c)
    requires k < |acts| && s in Successors(acts[k], g.nodes[c].state) && fp(s) !in g.seen
    ensures Expanding(Search(g.nodes + [Pending(acts[k].name, Some(c), s)], g.queue + [|g.nodes|], g.seen + {fp(s)}), fp, acts, root, c)
  {
    var r := Search(g.nodes + [Pending(acts[k].name, Some(c), s)], g.queue + [|g.nodes|], g.seen + {fp(s)});
    AppendKeepsCore(g, fp, acts, root, c, k, s);
    assert Layered(r.nodes, root, c);
  }

  lemma AppendKeepsCore<S>(g: Search<S>, fp: S -> u64, acts: seq<Action<S>>, root: nat, c: nat, k: nat, s: S)
    requires Expanding(g, fp, acts, root, c)
    requires k < |acts| && s in Successors(acts[k], g.nodes[c].state) && fp(s) !in g.seen
    ensures var r := Search(g.nodes + [Pending(acts[k].name, Some(c), s)], g.queue + [|g.nodes|], g.seen + {fp(s)});
      Core(r, fp, acts, root) && Layered(r.nodes, root, c)
  {
    var n := Pending(acts[k].name, Some(c), s);
    var r := Search(g.nodes + [n], g.queue + [|g.nodes|], g.seen + {fp(s)});
    AppendLayered(g.nodes, root, c, n);
    AppendFresh(fp, g.nodes, n);
    AppendProduced(acts, g.nodes, c, k, s);
    AppendRooted(g.nodes, root, c, n);
    AppendQueue(g, n);
    assert Prints(fp, r.nodes) == Prints(fp, g.nodes) + {fp(s)};
  }

  lemma AppendRooted<S>(nodes: seq<Pending<S>>, root: nat, c: nat, n: Pending<S>)
    requires Rooted(nodes, root) && root <= c < |nodes| && n.parent == Some(c)
    ensures Rooted(nodes + [n], root)
  {
  }

  lemma AppendQueue<S>(g: Search<S>, n: Pending<S>)
    requires QueueIsTail(g) && |g.queue| <= |g.nodes|
    ensures QueueIsTail(Search(g.nodes + [n], g.queue + [|g.nodes|], g.seen))
  {
  }

  // Growth facts that hold for every proposal, whatever the invariant.

  /** A proposal only appends: a new node comes with one new fingerprint and
      one queue entry, and the proposed state's fingerprint is recorded. */
  lemma OfferGrows<S>(g: Search<S>, fp: S -> u64, s: S, name: string, parent: nat)
    ensures var r := Offer(g, fp, s, name, parent);
      Extends(g, r) && fp(s) in r.seen
  {
    var r := Offer(g, fp, s, name, parent);
    assert r.nodes[..|g.nodes|] == g.nodes;
  }

  lemma {:induction false} OfferAllGrows<S>(g: Search<S>, fp: S -> u64, ss: seq<S>, name: string, parent: nat)
    ensures var r := OfferAll(g, fp, ss, name, parent);
      Extends(g, r) && AllSeen(fp, ss, r.seen)
    decreases |ss|
  {
    if ss != [] {
      var prefix := ss[..|ss| - 1];
      OfferAllGrows(g, fp, prefix, name, parent);
      var m := OfferAll(g, fp, prefix, name, parent);
      OfferGrows(m, fp, ss[|ss| - 1], name, parent);
      var r := Offer(m, fp, ss[|ss| - 1], name, parent);
      ExtendsTrans(g, m, r);
      forall i | 0 <= i < |ss| ensures fp(ss[i]) in r.seen {
        if i < |ss| - 1 {
          assert ss[i] == prefix[i];
        }
      }
    }
  }

  /** Running the first `n` actions is running the first `n - 1`, then action `n - 1`. */
  lemma ExpandAllLast<S>(g: Search<S>, fp: S -> u64, acts: seq<Action<S>>, c: nat, s: S, n: nat)
    requires 0 < n <= |acts|
    ensures ExpandAll(g, fp, acts[..n], c, s)
         == OfferAll(ExpandAll(g, fp, acts[..n - 1], c, s), fp, Successors(acts[n - 1], s), acts[n - 1].name, c)
  {
    PrefixOfPrefix(acts, n - 1);
  }

  lemma {:induction false} ExpandAllGrows<S>(g: Search<S>, fp: S -> u64, acts: seq<Action<S>>, c: nat, s: S, n: nat)
    requires n <= |acts|
    ensures var r := ExpandAll(g, fp, acts[..n], c, s);
      && Extends(g, r)
      && forall a :: 0 <= a < n ==> AllSeen(fp, Successors(acts[a], s), r.seen)
    decreases n
  {
    if n > 0 {
      ExpandAllGrows(g, fp, acts, c, s, n - 1);
      ExpandAllLast(g, fp, acts, c, s, n);
      var m := ExpandAll(g, fp, acts[..n - 1], c, s);
      OfferAllGrows(m, fp, Successors(acts[n - 1], s), acts[n - 1].name, c);
      var r := OfferAll(m, fp, Successors(acts[n - 1], s), acts[n - 1].name, c);
      ExtendsTrans(g, m, r);
      forall a | 0 <= a < n ensures AllSeen(fp, Successors(acts[a], s), r.seen) {
        if a < n - 1 {
          assert AllSeen(fp, Successors(acts[a], s), m.seen);
        }
      }
    }
  }

  lemma GrownKeeps<S>(g: Search<S>, r: Search<S>, i: nat)
    requires Grown(g, r) && i < |g.nodes|
    ensures i < |r.nodes| && r.nodes[i] == g.nodes[i]
  {
    assert r.nodes[i] == r.nodes[..|g.nodes|][i];
  }

  // Preservation of the invariant while a node is expanded.

  /** Proposing a sequence of successors of node `c`, one after the other,
      keeps the invariant. */
  lemma {:induction false} OfferAllKeepsExpanding<S>(g: Search<S>, fp: S -> u64, acts: seq<Action<S>>, root: nat, c: nat, k: nat, ss: seq<S>)
    requires Expanding(g, fp, acts, root, c) && k < |acts|
    requires forall i :: 0 <= i < |ss| ==> ss[i] in Successors(acts[k], g.nodes[c].state)
    ensures Expanding(OfferAll(g, fp, ss, acts[k].name, c), fp, acts, root, c)
    decreases |ss|
  {
    if ss != [] {
      var prefix := ss[..|ss| - 1];
      OfferAllKeepsExpanding(g, fp, acts, root, c, k, prefix);
      var m := OfferAll(g, fp, prefix, acts[k].name, c);
      OfferAllGrows(g, fp, prefix, acts[k].name, c);
      GrownKeeps(g, m, c);
      OfferKeepsExpanding(m, fp, acts, root, c, k, ss[|ss| - 1]);
    }
  }

  /** Running the first `n` actions on node `c` keeps the invariant. */
  lemma {:induction false} ExpandAllKeepsExpanding<S>(g: Search<S>, fp: S -> u64, acts: seq<Action<S>>, root: nat, c: nat, n: nat)
    requires Expanding(g, fp, acts, root, c) && n <= |acts|
    ensures Expanding(ExpandAll(g, fp, acts[..n], c, g.nodes[c].state), fp, acts, root, c)
    decreases n
  {
    if n > 0 {
      var s := g.nodes[c].state;
      ExpandAllKeepsExpanding(g, fp, acts, root, c, n - 1);
      var m := ExpandAll(g, fp, acts[..n - 1], c, s);
      ExpandAllKeepsNode(g, fp, acts, c, n - 1);
      OfferAllKeepsExpanding(m, fp, acts, root, c, n - 1, Successors(acts[n - 1], s));
      ExpandAllLast(g, fp, acts, c, s, n);
    }
  }

  lemma ExpandAllKeepsNode<S>(g: Search<S>, fp: S -> u64, acts: seq<Action<S>>, c: nat, n: nat)
    requires n <= |acts| && c < |g.nodes|
    ensures var m := ExpandAll(g, fp, acts[..n], c, g.nodes[c].state);
      c < |m.nodes| && m.nodes[c] == g.nodes[c]
  {
    ExpandAllGrows(g, fp, acts, c, g.nodes[c].state, n);
    GrownKeeps(g, ExpandAll(g, fp, acts[..n], c, g.nodes[c].state), c);
  }

  /** Once every action ran on a node that passes every invariant, that node
      is processed too. */
  lemma FinishExpansion<S>(g: Search<S>, fp: S -> u64, acts: seq<Action<S>>, invs: seq<Invariant<S>>, root: nat, c: nat)
    requires Closed(g, fp, acts, invs, root, c) && c < |g.nodes|
    requires InvariantsHold(invs, g.nodes[c].state)
    ensures var r := ExpandAll(g, fp, acts, c, g.nodes[c].state);
      Extends(g, r) && Closed(r, fp, acts, invs, root, c + 1)
  {
    ExpandAllGrows(g, fp, acts, c, g.nodes[c].state, |acts|);
    WholePrefix(acts);
    var r := ExpandAll(g, fp, acts, c, g.nodes[c].state);
    GrownKeeps(g, r, c);
    ClosedGrows(g, r, fp, acts, invs, root, c);
    assert Expanded(r.nodes[c].state, fp, acts, invs, r.seen);
    ClosedExtend(r, fp, acts, invs, root, c);
  }

  /** A step whose popped node passes every invariant: once every action ran
      on it, the node is processed and the engine is between steps again. */
  lemma StepExpands<S>(g: Search<S>, fp: S -> u64, acts: seq<Action<S>>, invs: seq<Invariant<S>>, root: nat)
    requires BetweenSteps(g, fp, acts, root) && g.queue != [] && Closed(g, fp, acts, invs, root, Head(g))
    requires g.queue[0] < |g.nodes| && InvariantsHold(invs, g.nodes[g.queue[0]].state)
    ensures var c := g.queue[0];
      var r := ExpandAll(Pop(g), fp, acts, c, g.nodes[c].state);
      && BetweenSteps(r, fp, acts, root) && Extends(Pop(g), r)
      && Closed(r, fp, acts, invs, root, Head(r)) && r.nodes[c] == g.nodes[c]
  {
    PopStartsExpansion(g, fp, acts, root);
    var c := g.queue[0];
    var p := Pop(g);
    assert Closed(p, fp, acts, invs, root, c) by {
      assert p.nodes == g.nodes && p.seen == g.seen;
    }
    ExpandAllKeepsExpanding(p, fp, acts, root, c, |acts|);
    WholePrefix(acts);
    FinishExpansion(p, fp, acts, invs, root, c);
    var r := ExpandAll(p, fp, acts, c, p.nodes[c].state);
    ExpansionEnds(r, fp, acts, root, c);
    GrownKeeps(p, r, c);
  }

  /** A step whose popped node violates an invariant leaves the engine
      between steps, with the popped node in the arena. */
  lemma StepStops<S>(g: Search<S>, fp: S -> u64, acts: seq<Action<S>>, root: nat)
    requires BetweenSteps(g, fp, acts, root) && g.queue != []
    ensures root <= g.queue[0] < |g.nodes| && g.queue[0] == Head(g) && BetweenSteps(Pop(g), fp, acts, root)
  {
    PopStartsExpansion(g, fp, acts, root);
    ExpansionEnds(Pop(g), fp, acts, root, g.queue[0]);
  }

  lemma ClosedExtend<S>(g: Search<S>, fp: S -> u64, acts: seq<Action<S>>, invs: seq<Invariant<S>>, lo: nat, hi: nat)
    requires Closed(g, fp, acts, invs, lo, hi) && hi < |g.nodes|
    requires Expanded(g.nodes[hi].state, fp, acts, invs, g.seen)
    ensures Closed(g, fp, acts, invs, lo, hi + 1)
  {
  }

  /** Nodes already processed stay processed while the arena and seen-set grow. */
  lemma ClosedGrows<S>(g: Search<S>, r: Search<S>, fp: S -> u64, acts: seq<Action<S>>, invs: seq<Invariant<S>>, lo: nat, hi: int)
    requires Closed(g, fp, acts, invs, lo, hi) && hi <= |g.nodes| && Extends(g, r)
    ensures Closed(r, fp, acts, invs, lo, hi)
  {
    forall i | lo <= i < hi && i < |r.nodes| ensures Expanded(r.nodes[i].state, fp, acts, invs, r.seen) {
      assert r.nodes[i] == r.nodes[..|g.nodes|][i];
    }
  }

  lemma GrownTrans<S>(a: Search<S>, b: Search<S>, c: Search<S>)
    requires Grown(a, b) && Grown(b, c)
    ensures Grown(a, c)
  {
    assert c.nodes[..|a.nodes|] == c.nodes[..|b.nodes|][..|a.nodes|];
  }

  lemma ExtendsTrans<S>(a: Search<S>, b: Search<S>, c: Search<S>)
    requires Extends(a, b) && Extends(b, c)
    ensures Extends(a, c)
  {
    GrownTrans(a, b, c);
  }

  lemma OfferAllSnoc<S>(g: Search<S>, fp: S -> u64, ss: seq<S>, s: S, name: string, parent: nat)
    ensures OfferAll(g, fp, ss + [s], name, parent) == Offer(OfferAll(g, fp, ss, name, parent), fp, s, name, parent)
  {
    assert (ss + [s])[..|ss|] == ss;
  }

  /** Every node a batch of proposals adds carries the proposing action's
      name, has the proposing node as parent and holds one of the proposed states. */
  lemma {:induction false} OfferAllLabels<S>(g: Search<S>, fp: S -> u64, ss: seq<S>, name: string, parent: nat)
    ensures var r := OfferAll(g, fp, ss, name, parent);
      && |g.nodes| <= |r.nodes|
      && forall i :: |g.nodes| <= i < |r.nodes| ==>
           r.nodes[i].generatedBy == name && r.nodes[i].parent == Some(parent) && r.nodes[i].state in ss
    decreases |ss|
  {
    if ss != [] {
      var prefix := ss[..|ss| - 1];
      OfferAllLabels(g, fp, prefix, name, parent);
      var m := OfferAll(g, fp, prefix, name, parent);
      forall i | |g.nodes| <= i < |m.nodes| ensures m.nodes[i].state in ss {
        assert m.nodes[i].state in prefix;
      }
    }
  }

  /** A copy of the popped state that an action leaves unmodified is never
      enqueued: its fingerprint is already recorded. */
  lemma DirectCopyEnqueuesNothing<S>(g: Search<S>, fp: S -> u64, c: nat, name: string)
    requires Prints(fp, g.nodes) <= g.seen && c < |g.nodes|
    ensures Offer(g, fp, g.nodes[c].state, name, c) == g
  {
    PrintsHas(fp, g.nodes, c);
  }

  /** In the queue, no two entries share a fingerprint. */
  lemma QueueFingerprintsDistinct<S>(g: Search<S>, fp: S -> u64, acts: seq<Action<S>>, root: nat)
    requires Core(g, fp, acts, root)
    ensures forall a, b :: 0 <= a < b < |g.queue| ==> fp(g.nodes[g.queue[a]].state) != fp(g.nodes[g.queue[b]].state)
  {
    forall a, b | 0 <= a < b < |g.queue|
      ensures fp(g.nodes[g.queue[a]].state) != fp(g.nodes[g.queue[b]].state)
    {
      var i, j := g.queue[a], g.queue[b];
      assert g.nodes[j].parent.Some?;
      PrintsHas(fp, g.nodes[..j], i);
    }
  }

  /** Breadth-first order: depths along the queue never decrease and the last
      entry is at most one level deeper than the first. */
  lemma QueueBreadthFirst<S>(g: Search<S>, fp: S -> u64, acts: seq<Action<S>>, root: nat)
    requires BetweenSteps(g, fp, acts, root)
    ensures forall a :: 0 <= a < |g.queue| ==> g.queue[a] < |g.nodes|
    ensures forall a, b :: 0 <= a < b < |g.queue| ==>
      Depth(g.nodes, g.queue[a]) <= Depth(g.nodes, g.queue[b]) <= Depth(g.nodes, g.queue[0]) + 1
  {
    if g.queue != [] {
      var h := Head(g);
      forall a, b | 0 <= a < b < |g.queue|
        ensures Depth(g.nodes, g.queue[a]) <= Depth(g.nodes, g.queue[b]) <= Depth(g.nodes, g.queue[0]) + 1
      {
        assert g.queue[a] == h + a && g.queue[b] == h + b && g.queue[0] == h;
      }
    }
  }

  /** The behaviour of any node of a run is an execution of the registered
      actions that starts at the run's initial state. */
  lemma {:induction false} BehaviorIsExecution<S>(g: Search<S>, fp: S -> u64, acts: seq<Action<S>>, root: nat, c: nat)
    requires Core(g, fp, acts, root) && root <= c < |g.nodes|
    ensures Execution(acts, g.nodes[root].state, Behavior(g.nodes, c))
    decreases c
  {
    assert LinksBack(g.nodes[c], c);
    if c != root {
      var p := g.nodes[c].parent.value;
      BehaviorIsExecution(g, fp, acts, root, p);
      var b := Behavior(g.nodes, c);
      assert b == Behavior(g.nodes, p) + [(g.nodes[c].generatedBy, g.nodes[c].state)];
      assert Produces(acts, g.nodes[p].state, g.nodes[c].generatedBy, g.nodes[c].state);
    }
  }

  /** The report of a failing step is a counterexample: a behaviour of the
      registered actions from the run's initial state whose last state
      violates the named invariant, the first one in registration order. */
  lemma ReportIsCounterexample<S>(g: Search<S>, fp: S -> u64, acts: seq<Action<S>>, invs: seq<Invariant<S>>, root: nat, c: nat, r: Report<S>)
    requires Core(g, fp, acts, root) && root <= c < |g.nodes|
    requires FirstFailing(invs, g.nodes[c].state).Some?
    requires r == Report(invs[FirstFailing(invs, g.nodes[c].state).value].name, Behavior(g.nodes, c))
    ensures Execution(acts, g.nodes[root].state, r.behavior) && FailsFirst(invs, r)
  {
    BehaviorIsExecution(g, fp, acts, root, c);
  }

  ghost predicate Next<S>(acts: seq<Action<S>>, s: S, t: S)
  {
    exists k :: 0 <= k < |acts| && t in Successors(acts[k], s)
  }

  /** A sequence of states each a successor of the one before. */
  ghost predicate Path<S>(acts: seq<Action<S>>, p: seq<S>)
  {
    forall j :: 0 < j < |p| ==> Next(acts, p[j - 1], p[j])
  }

  /** The state `t` shares its fingerprint with no explored state other
      than itself, so the seen-set cannot mistake it for one. */
  ghost predicate Unshadowed<S>(fp: S -> u64, nodes: seq<Pending<S>>, t: S)
  {
    forall i :: 0 <= i < |nodes| && fp(t) == fp(nodes[i].state) ==> t == nodes[i].state
  }

  /** No state along `path` collides with an explored state.  Only the
      states of the path are constrained, never the rest of the state type. */
  ghost predicate NoCollisionOn<S>(fp: S -> u64, nodes: seq<Pending<S>>, path: seq<S>)
  {
    forall j :: 0 <= j < |path| ==> Unshadowed(fp, nodes, path[j])
  }

  /** Some state of `trace` shares its fingerprint with a different explored state. */
  ghost predicate CollidesOn<S>(fp: S -> u64, nodes: seq<Pending<S>>, trace: seq<(string, S)>)
  {
    exists j :: 0 <= j < |trace| && !Unshadowed(fp, nodes, trace[j].1)
  }

  lemma {:induction false} PathIsExplored<S>(g: Search<S>, fp: S -> u64, acts: seq<Action<S>>, invs: seq<Invariant<S>>, path: seq<S>) returns (i: nat)
    requires g.seen == Prints(fp, g.nodes) && Closed(g, fp, acts, invs, 0, |g.nodes|)
    requires NoCollisionOn(fp, g.nodes, path)
    requires Path(acts, path) && |path| > 0 && g.nodes != [] && path[0] == g.nodes[0].state
    ensures i < |g.nodes| && g.nodes[i].state == path[|path| - 1]
    decreases |path|
  {
    if |path| == 1 {
      i := 0;
    } else {
      var prefix := path[..|path| - 1];
      assert Path(acts, prefix) by {
        forall j | 0 < j < |prefix| ensures Next(acts, prefix[j - 1], prefix[j]) {
          assert Next(acts, path[j - 1], path[j]);
        }
      }
      var p := PathIsExplored(g, fp, acts, invs, prefix);
      var t := path[|path| - 1];
      assert Unshadowed(fp, g.nodes, t);
      assert Next(acts, path[|path| - 2], t);
      var k :| 0 <= k < |acts| && t in Successors(acts[k], g.nodes[p].state);
      assert Expanded(g.nodes[p].state, fp, acts, invs, g.seen);
      assert AllSeen(fp, Successors(acts[k], g.nodes[p].state), g.seen);
      i := PrintsWitness(fp, g.nodes, fp(t));
    }
  }

  /** Soundness of an exhausted run, up to fingerprint collisions: when the
      whole arena of a run started on an empty engine was processed, every
      state reached along a path whose states collide with no explored state
      satisfies every invariant. */
  lemma ExhaustedIsSafe<S>(g: Search<S>, fp: S -> u64, acts: seq<Action<S>>, invs: seq<Invariant<S>>, path: seq<S>)
    requires g.seen == Prints(fp, g.nodes) && Closed(g, fp, acts, invs, 0, |g.nodes|)
    requires NoCollisionOn(fp, g.nodes, path)
    requires Path(acts, path) && |path| > 0 && g.nodes != [] && path[0] == g.nodes[0].state
    ensures InvariantsHold(invs, path[|path| - 1])
  {
    var i := PathIsExplored(g, fp, acts, invs, path);
    assert Expanded(g.nodes[i].state, fp, acts, invs, g.seen);
  }

  /** The states an execution passes through. */
  function States<S>(trace: seq<(string, S)>): (p: seq<S>)
    ensures |p| == |trace| && forall j :: 0 <= j < |trace| ==> p[j] == trace[j].1
  {
    seq(|trace|, j requires 0 <= j < |trace| => trace[j].1)
  }

  /** The contrapositive of soundness: when some behaviour of the actions
      reaches a state that violates an invariant, a run that processed its
      whole arena without reporting it met a fingerprint collision on that
      behaviour: one of its states shares a fingerprint with a different
      explored state. */
  lemma ViolationForcesCollision<S>(g: Search<S>, fp: S -> u64, acts: seq<Action<S>>, invs: seq<Invariant<S>>,
                                          trace: seq<(string, S)>)
    requires g.seen == Prints(fp, g.nodes) && Closed(g, fp, acts, invs, 0, |g.nodes|) && g.nodes != []
    requires Execution(acts, g.nodes[0].state, trace)
    requires FirstFailing(invs, trace[|trace| - 1].1).Some?
    ensures CollidesOn(fp, g.nodes, trace)
  {
    var path := States(trace);
    if NoCollisionOn(fp, g.nodes, path) {
      assert Path(acts, path) by {
        forall j | 0 < j < |path| ensures Next(acts, path[j - 1], path[j]) {
          assert Produces(acts, trace[j - 1].1, trace[j].0, trace[j].1);
          var k :| 0 <= k < |acts| && acts[k].name == trace[j].0 && trace[j].1 in Successors(acts[k], trace[j - 1].1);
        }
      }
      ExhaustedIsSafe(g, fp, acts, invs, path);
      assert false;
    }
    var j :| 0 <= j < |path| && !Unshadowed(fp, g.nodes, path[j]);
    assert path[j] == trace[j].1;
  }

  // ---------------------------------------------------------------------
  // Shortest reports

  /** Among the behaviours of `acts` from `init` that end in a state violating
      some invariant and whose states collide with no state of `nodes`, none
      is shorter than `b`.  When no reachable state collides, that is every
      violating behaviour. */
  ghost predicate Shortest<S(!new)>(acts: seq<Action<S>>, invs: seq<Invariant<S>>, init: S, b: seq<(string, S)>,
                                    fp: S -> u64, nodes: seq<Pending<S>>)
  {
    forall trace: seq<(string, S)> ::
      |trace| > 0 && Execution(acts, init, trace) && FirstFailing(invs, trace[|trace| - 1].1).Some? &&
      !CollidesOn(fp, nodes, trace) ==>
        |b| <= |trace|
  }

  lemma PrintsPrefix<S>(fp: S -> u64, nodes: seq<Pending<S>>, m: nat)
    requires m <= |nodes|
    ensures Prints(fp, nodes[..m]) <= Prints(fp, nodes)
  {
    forall h | h in Prints(fp, nodes[..m]) ensures h in Prints(fp, nodes) {
      var i := PrintsWitness(fp, nodes[..m], h);
      PrintsHas(fp, nodes, i);
    }
  }

  /** Depths in a prefix of the arena are the depths in the whole arena. */
  lemma {:induction false} DepthPrefix<S>(pre: seq<Pending<S>>, nodes: seq<Pending<S>>, i: nat)
    requires Tree(nodes) && |pre| <= |nodes| && nodes[..|pre|] == pre && i < |pre|
    ensures Tree(pre) && Depth(pre, i) == Depth(nodes, i)
    decreases i
  {
    assert forall j :: 0 <= j < |pre| ==> pre[j] == nodes[j];
    assert LinksBack(nodes[i], i);
    match pre[i].parent
    case None =>
    case Some(p) => DepthPrefix(pre, nodes, p);
  }

  /** Every node a run added after `g` carries a fingerprint that `g` had not seen. */
  lemma NewNodesFresh<S>(g: Search<S>, r: Search<S>, fp: S -> u64, acts: seq<Action<S>>, root: nat)
    requires Core(r, fp, acts, root) && Grown(g, r) && root < |g.nodes| && g.seen == Prints(fp, g.nodes)
    ensures forall n :: |g.nodes| <= n < |r.nodes| ==> fp(r.nodes[n].state) !in g.seen
  {
    forall n | |g.nodes| <= n < |r.nodes| ensures fp(r.nodes[n].state) !in g.seen {
      assert r.nodes[n].parent.Some?;
      assert r.nodes[..n][..|g.nodes|] == g.nodes;
      PrintsPrefix(fp, r.nodes[..n], |g.nodes|);
    }
  }

  /** Nodes appended with other fingerprints than `t`'s do not disturb `Near`. */
  lemma NearGrows<S>(pre: seq<Pending<S>>, nodes: seq<Pending<S>>, fp: S -> u64, root: nat, i: nat, t: S)
    requires Tree(nodes) && |pre| <= |nodes| && nodes[..|pre|] == pre && i < |pre|
    requires Tree(pre) && Near(pre, fp, root, i, t)
    requires forall n :: |pre| <= n < |nodes| ==> fp(nodes[n].state) != fp(t)
    ensures Near(nodes, fp, root, i, t)
  {
    DepthPrefix(pre, nodes, i);
    forall n | root <= n < |nodes| && fp(nodes[n].state) == fp(t) ensures Depth(nodes, n) <= Depth(nodes, i) + 1 {
      assert n < |pre| && nodes[n] == pre[n];
      DepthPrefix(pre, nodes, n);
    }
  }

  /** A processed node keeps its successors near while the run grows. */
  lemma ProcessedStaysNear<S>(g: Search<S>, r: Search<S>, fp: S -> u64, acts: seq<Action<S>>, invs: seq<Invariant<S>>,
                              root: nat, hi: int, i: nat, k: nat, j: nat)
    requires Tree(r.nodes) && Grown(g, r) && g.seen == Prints(fp, g.nodes)
    requires root <= i < hi && i < |g.nodes| && Closed(g, fp, acts, invs, root, hi) && Shallow(g.nodes, fp, acts, root, hi)
    requires k < |acts| && j < |Successors(acts[k], g.nodes[i].state)|
    requires forall n :: |g.nodes| <= n < |r.nodes| ==> fp(r.nodes[n].state) !in g.seen
    ensures r.nodes[i] == g.nodes[i] && Near(r.nodes, fp, root, i, Successors(acts[k], g.nodes[i].state)[j])
  {
    var t := Successors(acts[k], g.nodes[i].state)[j];
    assert r.nodes[i] == r.nodes[..|g.nodes|][i];
    assert Near(g.nodes, fp, root, i, t);
    assert Expanded(g.nodes[i].state, fp, acts, invs, g.seen);
    assert AllSeen(fp, Successors(acts[k], g.nodes[i].state), g.seen);
    NearGrows(g.nodes, r.nodes, fp, root, i, t);
  }

  /** Expanding the popped node keeps every processed node's successors near,
      and the popped node's own as well: nothing in the arena is deeper than
      one level below it. */
  lemma StepShallow<S>(g: Search<S>, fp: S -> u64, acts: seq<Action<S>>, invs: seq<Invariant<S>>, root: nat)
    requires BetweenSteps(g, fp, acts, root) && g.queue != [] && Closed(g, fp, acts, invs, root, Head(g))
    requires Shallow(g.nodes, fp, acts, root, Head(g))
    ensures var r := ExpandAll(Pop(g), fp, acts, g.queue[0], g.nodes[g.queue[0]].state);
      Shallow(r.nodes, fp, acts, root, Head(r))
  {
    PopStartsExpansion(g, fp, acts, root);
    var c := g.queue[0];
    var p := Pop(g);
    var s := g.nodes[c].state;
    ExpandAllKeepsExpanding(p, fp, acts, root, c, |acts|);
    ExpandAllGrows(p, fp, acts, c, s, |acts|);
    WholePrefix(acts);
    var r := ExpandAll(p, fp, acts, c, s);
    assert Expanding(r, fp, acts, root, c);
    assert Grown(g, r);
    NewNodesFresh(g, r, fp, acts, root);
    ShallowAfter(g, r, fp, acts, invs, root, c);
  }

  lemma ShallowAfter<S>(g: Search<S>, r: Search<S>, fp: S -> u64, acts: seq<Action<S>>, invs: seq<Invariant<S>>, root: nat, c: nat)
    requires Tree(r.nodes) && Grown(g, r) && g.seen == Prints(fp, g.nodes) && root <= c < |g.nodes|
    requires Closed(g, fp, acts, invs, root, c) && Shallow(g.nodes, fp, acts, root, c)
    requires Layered(r.nodes, root, c)
    requires forall n :: |g.nodes| <= n < |r.nodes| ==> fp(r.nodes[n].state) !in g.seen
    ensures Shallow(r.nodes, fp, acts, root, c + 1)
  {
    forall i, k, j | root <= i < c + 1 && i < |r.nodes| && 0 <= k < |acts| && 0 <= j < |Successors(acts[k], r.nodes[i].state)|
      ensures Near(r.nodes, fp, root, i, Successors(acts[k], r.nodes[i].state)[j])
    {
      if i < c {
        ProcessedStaysNear(g, r, fp, acts, invs, root, c, i, k, j);
      }
    }
  }

  /** Along an execution from the initial state of a run rooted at 0, each
      state either lies on a processed node no deeper than its position, or
      node `c` is no deeper than that position. */
  lemma {:induction false} ReachedNear<S>(g: Search<S>, fp: S -> u64, acts: seq<Action<S>>, invs: seq<Invariant<S>>,
                                         c: nat, trace: seq<(string, S)>, j: nat) returns (n: nat)
    requires Tree(g.nodes) && c < |g.nodes| && g.nodes[0].parent.None? && Ordered(g.nodes, 0) && g.seen == Prints(fp, g.nodes)
    requires Closed(g, fp, acts, invs, 0, c) && Shallow(g.nodes, fp, acts, 0, c)
    requires !CollidesOn(fp, g.nodes, trace) && Execution(acts, g.nodes[0].state, trace) && j < |trace|
    ensures Depth(g.nodes, c) <= j + 1 || (n < c && g.nodes[n].state == trace[j].1 && Depth(g.nodes, n) <= j + 1)
    decreases j
  {
    if j == 0 {
      n := 0;
      assert g.nodes[0].parent.None?;
    } else {
      var p := ReachedNear(g, fp, acts, invs, c, trace, j - 1);
      n := p;
      if Depth(g.nodes, c) > j {
        assert Produces(acts, trace[j - 1].1, trace[j].0, trace[j].1);
        var k :| 0 <= k < |acts| && acts[k].name == trace[j].0 && trace[j].1 in Successors(acts[k], g.nodes[p].state);
        assert Unshadowed(fp, g.nodes, trace[j].1);
        n := SuccessorNear(g, fp, acts, invs, c, p, k, trace[j].1);
      }
    }
  }

  /** One step of `ReachedNear`: a successor of a processed node lies on a
      processed node at most one level deeper, unless node `c` is that shallow. */
  lemma SuccessorNear<S>(g: Search<S>, fp: S -> u64, acts: seq<Action<S>>, invs: seq<Invariant<S>>,
                         c: nat, p: nat, k: nat, t: S) returns (n: nat)
    requires Tree(g.nodes) && c < |g.nodes| && Ordered(g.nodes, 0) && g.seen == Prints(fp, g.nodes)
    requires Closed(g, fp, acts, invs, 0, c) && Shallow(g.nodes, fp, acts, 0, c)
    requires Unshadowed(fp, g.nodes, t) && p < c && k < |acts| && t in Successors(acts[k], g.nodes[p].state)
    ensures Depth(g.nodes, c) <= Depth(g.nodes, p) + 1 || (n < c && g.nodes[n].state == t && Depth(g.nodes, n) <= Depth(g.nodes, p) + 1)
  {
    var q :| 0 <= q < |Successors(acts[k], g.nodes[p].state)| && Successors(acts[k], g.nodes[p].state)[q] == t;
    assert Expanded(g.nodes[p].state, fp, acts, invs, g.seen);
    assert AllSeen(fp, Successors(acts[k], g.nodes[p].state), g.seen);
    n := PrintsWitness(fp, g.nodes, fp(t));
    assert Near(g.nodes, fp, 0, p, t);
    if c < n {
      assert Depth(g.nodes, c) <= Depth(g.nodes, n);
    }
  }

  lemma ShortestFor<S>(g: Search<S>, fp: S -> u64, acts: seq<Action<S>>, invs: seq<Invariant<S>>,
                     c: nat, trace: seq<(string, S)>)
    requires Tree(g.nodes) && c < |g.nodes| && g.nodes[0].parent.None? && Ordered(g.nodes, 0) && g.seen == Prints(fp, g.nodes)
    requires Closed(g, fp, acts, invs, 0, c) && Shallow(g.nodes, fp, acts, 0, c)
    requires !CollidesOn(fp, g.nodes, trace) && Execution(acts, g.nodes[0].state, trace)
    requires FirstFailing(invs, trace[|trace| - 1].1).Some?
    ensures |Behavior(g.nodes, c)| <= |trace|
  {
    var n := ReachedNear(g, fp, acts, invs, c, trace, |trace| - 1);
  }

  /** Breadth-first order pays off, up to fingerprint collisions: in a run
      from an empty engine, the behaviour reported for the first popped node
      that fails an invariant is no longer than any violating behaviour whose
      states collide with no explored state. */
  lemma ReportIsShortest<S(!new)>(g: Search<S>, fp: S -> u64, acts: seq<Action<S>>, invs: seq<Invariant<S>>, c: nat)
    requires Core(g, fp, acts, 0) && c < |g.nodes| && Closed(g, fp, acts, invs, 0, c) && Shallow(g.nodes, fp, acts, 0, c)
    ensures Shortest(acts, invs, g.nodes[0].state, Behavior(g.nodes, c), fp, g.nodes)
  {
    assert g.nodes[0].parent.None? && Ordered(g.nodes, 0);
    forall trace: seq<(string, S)> |
      |trace| > 0 && Execution(acts, g.nodes[0].state, trace) && FirstFailing(invs, trace[|trace| - 1].1).Some? &&
      !CollidesOn(fp, g.nodes, trace)
      ensures |Behavior(g.nodes, c)| <= |trace|
    {
      ShortestFor(g, fp, acts, invs, c, trace);
    }
  }

  /** Slicing facts, stated once for any element type. */
  lemma PrefixOfPrefix<T>(xs: seq<T>, n: nat)
    requires n < |xs|
    ensures xs[..n + 1][..n] == xs[..n]
  {
  }

  lemma AppendNext<T>(pre: seq<T>, xs: seq<T>, k: nat)
    requires k < |xs|
    ensures pre + xs[..k] + [xs[k]] == pre + xs[..k + 1]
  {
    assert xs[..k + 1] == xs[..k] + [xs[k]];
  }

  lemma WholePrefix<T>(xs: seq<T>)
    ensures xs[..|xs|] == xs
  {
  }

  lemma {:induction false} CardinalityBelow(s: set<u64>, n: int)
    requires 0 <= n <= U64Count && forall x :: x in s ==> x as int < n
    ensures |s| <= n
    decreases n
  {
    if n > 0 {
      var top := (n - 1) as u64;
      CardinalityBelow(s - {top}, n - 1);
    }
  }

  /** A seen-set holds at most 2^64 fingerprints, which bounds every run. */
  lemma SeenBounded(seen: set<u64>)
    ensures |seen| <= U64Count
  {
    CardinalityBelow(seen, U64Count);
  }
}
