/** The model checker of src/model_checker.rs as an object whose methods
    update its fields in place: a FIFO `queue`, the `seen` fingerprints, the
    node being expanded (`current`) and the index of the action being run
    (`currentAction`).  The source chains each pending node to a boxed copy of
    its parent; here nodes live in the arena `nodes` and refer to their parent
    by index.  Every method is proved against the functions of module Explore. */
module Checker {
  import opened Explore

  class ModelChecker<S(!new)> {
    /** The fingerprint of a state; the source's `hash`, a 64-bit digest that
        may map distinct states to the same value. */
    const fp: S -> u64

    var queue: seq<nat>
    var current: Option<nat>
    var currentAction: nat
    var seen: set<u64>
    var actions: seq<Action<S>>
    var invariants: seq<Invariant<S>>

    /** Every node discovered so far; `queue`, `current` and parent links index it. */
    var nodes: seq<Pending<S>>

    /** The arena index of the initial node of the latest run. */
    ghost var root: nat

    ghost function Snapshot(): Search<S>
      reads this
    {
      Search(nodes, queue, seen)
    }

    ghost predicate Valid()
      reads this
    {
      BetweenSteps(Snapshot(), fp, actions, root)
    }

    /** `ModelChecker::new`: nothing registered, nothing seen, nothing queued. */
    constructor (fp: S -> u64)
      ensures Valid() && this.fp == fp
      ensures queue == [] && current == None && currentAction == 0 && seen == {}
      ensures actions == [] && invariants == [] && nodes == []
    {
      this.fp := fp;
      queue := [];
      current := None;
      currentAction := 0;
      seen := {};
      actions := [];
      invariants := [];
      nodes := [];
      root := 0;
    }

    /** `action`: registered actions run in registration order. */
    method AddAction(name: string, apply: S -> Effect<S>)
      requires Valid()
      modifies this`actions
      ensures Valid() && actions == old(actions) + [Action(name, apply)]
    {
      ProducedGrows(actions, Action(name, apply), nodes);
      actions := actions + [Action(name, apply)];
    }

    /** A chain of `action` calls: register each of `acts`, in order. */
    method AddActions(acts: seq<Action<S>>)
      requires Valid()
      modifies this`actions
      ensures Valid() && actions == old(actions) + acts
    {
      ghost var before := actions;
      for k := 0 to |acts|
        invariant Valid() && actions == before + acts[..k]
      {
        AddAction(acts[k].name, acts[k].apply);
        assert Action(acts[k].name, acts[k].apply) == acts[k];
        AppendNext(before, acts, k);
      }
      WholePrefix(acts);
    }

    /** `invariant`: registered invariants are checked in registration order. */
    method AddInvariant(name: string, holds: S -> bool)
      requires Valid()
      modifies this`invariants
      ensures Valid() && invariants == old(invariants) + [Invariant(name, holds)]
    {
      invariants := invariants + [Invariant(name, holds)];
    }

    /** `run`: seed the search with `init`, then step until the queue is empty
        or a popped state violates an invariant.  The source prints the
        behaviour and exits the process; here it is returned. */
    method Run(init: S) returns (out: Outcome<S>)
      requires Valid() && queue == []
      modifies this`queue, this`seen, this`nodes, this`current, this`currentAction, this`root
      ensures Valid() && Grown(old(Snapshot()), Snapshot())
      ensures root == old(|nodes|) && root < |nodes| && nodes[root] == Pending(InitName, None, init)
      ensures fp(init) in seen
      ensures out.Violated? ==> Execution(actions, init, out.report.behavior) && FailsFirst(invariants, out.report)
      ensures out.Exhausted? ==> queue == [] && Closed(Snapshot(), fp, actions, invariants, root, |nodes|)
      ensures out.Violated? && root == 0 ==> Shortest(actions, invariants, init, out.report.behavior, fp, nodes)
    {
      ghost var g0 := Snapshot();
      SeedStartsRun(g0, fp, actions, root, init);
      root := |nodes|;
      seen := seen + {fp(init)};
      queue := queue + [|nodes|];
      nodes := nodes + [Pending(InitName, None, init)];
      ghost var g1 := Snapshot();
      assert g1 == Seed(g0, fp, init);
      assert Shallow(nodes, fp, actions, root, Head(g1));
      out := Drain();
      GrownTrans(g0, g1, Snapshot());
      GrownKeeps(g1, Snapshot(), root);
    }

    /** The loop of `run`: step while the queue is not empty, stopping at the
        first popped state that violates an invariant. */
    method Drain() returns (out: Outcome<S>)
      requires Valid() && root < |nodes|
      requires Closed(Snapshot(), fp, actions, invariants, root, Head(Snapshot()))
      requires Shallow(nodes, fp, actions, root, Head(Snapshot()))
      modifies this`queue, this`seen, this`nodes, this`current, this`currentAction
      ensures Valid() && Grown(old(Snapshot()), Snapshot())
      ensures out.Violated? ==>
        Execution(actions, nodes[root].state, out.report.behavior) && FailsFirst(invariants, out.report)
      ensures out.Violated? && root == 0 ==>
        Shortest(actions, invariants, nodes[root].state, out.report.behavior, fp, nodes)
      ensures out.Exhausted? ==> queue == [] && Closed(Snapshot(), fp, actions, invariants, root, |nodes|)
    {
      ghost var g0 := Snapshot();
      SeenBounded(seen);
      while queue != []
        invariant Valid() && Grown(g0, Snapshot())
        invariant Closed(Snapshot(), fp, actions, invariants, root, Head(Snapshot()))
        invariant Shallow(nodes, fp, actions, root, Head(Snapshot()))
        invariant |seen| <= U64Count
        decreases U64Count - |seen|, |queue|
      {
        ghost var c := queue[0];
        ghost var before := Snapshot();
        var found := Step();
        SeenBounded(seen);
        GrownTrans(g0, Pop(before), Snapshot());
        if found.Some? {
          ReportIsCounterexample(Snapshot(), fp, actions, invariants, root, c, found.value);
          if root == 0 {
            ReportIsShortest(Snapshot(), fp, actions, invariants, c);
          }
          return Violated(found.value);
        }
      }
      return Exhausted;
    }

    /** `step`: pop the front node, check every invariant on it in
        registration order, and if all hold run every action on it. */
    method Step() returns (found: Option<Report<S>>)
      requires Valid() && queue != []
      requires Closed(Snapshot(), fp, actions, invariants, root, Head(Snapshot()))
      requires Shallow(nodes, fp, actions, root, Head(Snapshot()))
      modifies this`queue, this`seen, this`nodes, this`current, this`currentAction
      ensures Valid() && Extends(Pop(old(Snapshot())), Snapshot())
      ensures var c := old(queue[0]);
        root <= c < |nodes| && nodes[c] == old(nodes[c])
      ensures var f := FirstFailing(invariants, old(nodes[queue[0]].state));
        && (found.Some? <==> f.Some?)
        && (found.Some? ==>
              Snapshot() == Pop(old(Snapshot()))
              && found.value == Report(invariants[f.value].name, Behavior(nodes, old(queue[0])))
              && current == old(current) && currentAction == old(currentAction)
              && Closed(Snapshot(), fp, actions, invariants, root, old(queue[0]))
              && Shallow(nodes, fp, actions, root, old(queue[0])))
      ensures found.None? ==>
        && current == Some(old(queue[0]))
        && (|actions| > 0 ==> currentAction == |actions| - 1)
        && (actions == [] ==> currentAction == old(currentAction))
        && Snapshot() == ExpandAll(Pop(old(Snapshot())), fp, actions, old(queue[0]), old(nodes[queue[0]].state))
        && Closed(Snapshot(), fp, actions, invariants, root, Head(Snapshot()))
        && Shallow(nodes, fp, actions, root, Head(Snapshot()))
    {
      ghost var g0 := Snapshot();
      var c := queue[0];
      StepStops(g0, fp, actions, root);
      queue := queue[1..];
      assert Snapshot() == Pop(g0);
      var s := nodes[c].state;

      var failing := CheckInvariants(s);
      if failing.Some? {
        assert Closed(Snapshot(), fp, actions, invariants, root, c);
        var behavior := BuildBehavior(nodes, c);
        return Some(Report(invariants[failing.value].name, behavior));
      }

      StepExpands(g0, fp, actions, invariants, root);
      StepShallow(g0, fp, actions, invariants, root);
      Expand(c);
      found := None;
    }

    /** The invariant loop of `step`: the index of the first registered
        invariant that `s` violates, if any. */
    method CheckInvariants(s: S) returns (failing: Option<nat>)
      ensures failing == FirstFailing(invariants, s)
    {
      var k := 0;
      while k < |invariants|
        invariant 0 <= k <= |invariants|
        invariant forall j :: 0 <= j < k ==> invariants[j].holds(s)
      {
        if !invariants[k].holds(s) {
          assert InvariantsHold(invariants[..k], s);
          FirstFailingAt(invariants, s, k);
          return Some(k);
        }
        k := k + 1;
      }
      failing := None;
    }

    /** The rest of `step` once node `c` passed every invariant: make it
        current and run every action on it, in registration order. */
    method Expand(c: nat)
      requires c < |nodes|
      modifies this`queue, this`seen, this`nodes, this`current, this`currentAction
      ensures current == Some(c)
      ensures |actions| > 0 ==> currentAction == |actions| - 1
      ensures actions == [] ==> currentAction == old(currentAction)
      ensures Snapshot() == ExpandAll(old(Snapshot()), fp, actions, c, old(nodes[c].state))
    {
      current := Some(c);
      ghost var popped := Snapshot();
      var s := nodes[c].state;
      var i := 0;
      while i < |actions|
        invariant 0 <= i <= |actions| && current == Some(c)
        invariant if i == 0 then currentAction == old(currentAction) else currentAction == i - 1
        invariant Snapshot() == ExpandAll(popped, fp, actions[..i], c, s)
      {
        ExpandAllGrows(popped, fp, actions, c, s, i);
        GrownKeeps(popped, Snapshot(), c);
        RunAction(i);
        PrefixOfPrefix(actions, i);
        i := i + 1;
      }
      WholePrefix(actions);
    }

    /** One round of `step`'s action loop: run action `i` on a clone of the
        popped state, then propose the state the action leaves behind. */
    method RunAction(i: nat)
      requires current.Some? && current.value < |nodes| && i < |actions|
      modifies this`queue, this`seen, this`nodes, this`currentAction
      ensures currentAction == i
      ensures Snapshot() == OfferAll(old(Snapshot()), fp, Successors(actions[i], old(nodes[current.value].state)),
                                     actions[i].name, current.value)
    {
      currentAction := i;
      ghost var g1 := Snapshot();
      var c := current.value;
      var s := nodes[c].state;
      var e := actions[i].apply(s);
      ThereExists(e.branches, Keep);
      BranchesKeep(s, e.branches);
      Propose(e.direct);
      OfferAllSnoc(g1, fp, e.branches, e.direct, actions[i].name, c);
    }

    /** `there_exists`: for every element of `xs`, in order, apply `f` to a
        fresh clone of the popped state and propose the result under the
        running action's name. */
    method ThereExists<V>(xs: seq<V>, f: (S, V) -> S)
      requires current.Some? && current.value < |nodes| && currentAction < |actions|
      modifies this`queue, this`seen, this`nodes
      ensures Snapshot() == OfferAll(old(Snapshot()), fp, Branches(old(nodes[current.value].state), xs, f),
                                     actions[currentAction].name, current.value)
      ensures AllSeen(fp, Branches(old(nodes[current.value].state), xs, f), seen)
    {
      ghost var g0 := Snapshot();
      var c := current.value;
      ghost var s := nodes[c].state;
      var j := 0;
      while j < |xs|
        invariant 0 <= j <= |xs|
        invariant Snapshot() == OfferAll(g0, fp, Branches(s, xs[..j], f), actions[currentAction].name, c)
      {
        OfferAllGrows(g0, fp, Branches(s, xs[..j], f), actions[currentAction].name, c);
        GrownKeeps(g0, Snapshot(), c);
        var next := f(nodes[c].state, xs[j]);
        Propose(next);
        BranchesSnoc(s, xs, f, j);
        OfferAllSnoc(g0, fp, Branches(s, xs[..j], f), next, actions[currentAction].name, c);
        j := j + 1;
      }
      assert xs[..j] == xs;
      OfferAllGrows(g0, fp, Branches(s, xs, f), actions[currentAction].name, c);
    }

    /** The body shared by `step`'s direct path and `there_exists`: enqueue
        `s` as a child of the popped node exactly when its fingerprint is new,
        recording the fingerprint at the same moment. */
    method Propose(s: S)
      requires current.Some? && currentAction < |actions|
      modifies this`queue, this`seen, this`nodes
      ensures Snapshot() == Offer(old(Snapshot()), fp, s, actions[currentAction].name, current.value)
      ensures fp(s) in seen
    {
      var h := fp(s);
      if h !in seen {
        seen := seen + {h};
        queue := queue + [|nodes|];
        nodes := nodes + [Pending(actions[currentAction].name, current, s)];
      }
    }
  }
}
