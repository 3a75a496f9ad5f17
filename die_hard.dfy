/** The water-jug puzzle of src/die_hard.rs: a 3-litre and a 5-litre jug,
    six actions that fill, empty or pour between them, and the invariant
    that the big jug never holds exactly 4 litres.  The source's test
    registers these with the engine and runs it from two empty jugs;
    `CheckPuzzle` does the same with the model of the engine. */
module DieHard {
  import opened Explore
  import opened Checker

  /** Rust's `u8`: arithmetic that leaves this range is a panic in the
      source's debug builds, so every operation below is checked against it. */
  newtype u8 = x: int | 0 <= x < 0x100

  datatype State = State(small: u8, big: u8)

  /** Neither jug holds more than it can. */
  predicate InBounds(s: State)
  {
    s.small <= 3 && s.big <= 5
  }

  /** The states the puzzle can be in; the type the engine is instantiated with. */
  type Jugs = s: State | InBounds(s) witness State(0, 0)

  function FillSmall(s: State): (r: State)
    ensures r.small == 3 && r.big == s.big
    ensures InBounds(s) ==> InBounds(r)
  {
    s.(small := 3)
  }

  function FillBig(s: State): (r: State)
    ensures r.big == 5 && r.small == s.small
    ensures InBounds(s) ==> InBounds(r)
  {
    s.(big := 5)
  }

  function EmptySmall(s: State): (r: State)
    ensures r.small == 0 && r.big == s.big
    ensures InBounds(s) ==> InBounds(r)
  {
    s.(small := 0)
  }

  function EmptyBig(s: State): (r: State)
    ensures r.big == 0 && r.small == s.small
    ensures InBounds(s) ==> InBounds(r)
  {
    s.(big := 0)
  }

  /** `std::cmp::min`. */
  function Min(a: u8, b: u8): (m: u8)
    ensures m <= a && m <= b && (m == a || m == b)
  {
    if a <= b then a else b
  }

  /** Pour from the big jug into the small one until the small one is full
      or the big one is empty.  `3 - small` must not underflow. */
  function MoveFromBigToSmall(s: State): (r: State)
    requires s.small <= 3
    ensures r.small as int + r.big as int == s.small as int + s.big as int
    ensures r.small == 3 || r.big == 0
    ensures s.small <= r.small && r.big <= s.big
    ensures InBounds(s) ==> InBounds(r)
  {
    var amount := Min(3 - s.small, s.big);
    s.(small := s.small + amount, big := s.big - amount)
  }

  /** Pour from the small jug into the big one until the big one is full
      or the small one is empty.  `5 - big` must not underflow. */
  function MoveFromSmallToBig(s: State): (r: State)
    requires s.big <= 5
    ensures r.small as int + r.big as int == s.small as int + s.big as int
    ensures r.big == 5 || r.small == 0
    ensures r.small <= s.small && s.big <= r.big
    ensures InBounds(s) ==> InBounds(r)
  {
    var amount := Min(5 - s.big, s.small);
    s.(small := s.small - amount, big := s.big + amount)
  }

  predicate GallonNeverHas4Liters(s: State)
  {
    s.big != 4
  }

  /** What an action that only mutates its copy offers the engine. */
  function Mutated(s: Jugs): Effect<Jugs>
  {
    Effect([], s)
  }

  // The six jug operations as the engine's actions.
  function FillSmallStep(s: Jugs): Effect<Jugs> { Mutated(FillSmall(s)) }
  function FillBigStep(s: Jugs): Effect<Jugs> { Mutated(FillBig(s)) }
  function EmptySmallStep(s: Jugs): Effect<Jugs> { Mutated(EmptySmall(s)) }
  function EmptyBigStep(s: Jugs): Effect<Jugs> { Mutated(EmptyBig(s)) }
  function MoveFromBigToSmallStep(s: Jugs): Effect<Jugs> { Mutated(MoveFromBigToSmall(s)) }
  function MoveFromSmallToBigStep(s: Jugs): Effect<Jugs> { Mutated(MoveFromSmallToBig(s)) }
  /** The actions the test registers, in its order.  None of them branches:
      each offers only the copy it mutated. */
  function Actions(): (acts: seq<Action<Jugs>>)
    ensures |acts| == 6
  {
    [ Action("fill_small", FillSmallStep),
      Action("fill_big", FillBigStep),
      Action("empty_small", EmptySmallStep),
      Action("empty_big", EmptyBigStep),
      Action("move_from_big_to_small", MoveFromBigToSmallStep),
      Action("move_from_small_to_big", MoveFromSmallToBigStep) ]
  }

  function Invariants(): seq<Invariant<Jugs>>
  {
    [Invariant("gallon_never_has_4_liters", (s: Jugs) => GallonNeverHas4Liters(s))]
  }

  /** Two empty jugs. */
  const Start: Jugs := State(0, 0)

  /** Six pours that measure 4 litres. */
  const Solution: seq<(string, Jugs)> :=
    [ (InitName, State(0, 0)),
      ("fill_big", State(0, 5)),
      ("move_from_big_to_small", State(3, 2)),
      ("empty_small", State(0, 2)),
      ("move_from_big_to_small", State(2, 0)),
      ("fill_big", State(2, 5)),
      ("move_from_big_to_small", State(3, 4)) ]

  /** Step `j` of `trace` is the action registered at `k`. */
  lemma Pours(trace: seq<(string, Jugs)>, j: nat, k: nat)
    requires 0 < j < |trace| && k < |Actions()|
    requires trace[j].0 == Actions()[k].name && Actions()[k].apply(trace[j - 1].1).direct == trace[j].1
    ensures Produces(Actions(), trace[j - 1].1, trace[j].0, trace[j].1)
  {
    assert trace[j].1 in Successors(Actions()[k], trace[j - 1].1);
  }

  /** The six pours are a behaviour of the registered actions from two empty jugs. */
  lemma SolutionIsExecution()
    ensures Execution(Actions(), Start, Solution)
  {
    var acts := Actions();
    forall j | 0 < j < |Solution| ensures Produces(acts, Solution[j - 1].1, Solution[j].0, Solution[j].1) {
      if j == 1 || j == 5 {
        Pours(Solution, j, 1);
      } else if j == 3 {
        Pours(Solution, j, 2);
      } else {
        Pours(Solution, j, 4);
      }
    }
  }

  /** The last state of the six pours is the first to violate the registered invariant. */
  lemma SolutionViolates()
    ensures Solution[|Solution| - 1].1 == State(3, 4)
    ensures FirstFailing(Invariants(), Solution[|Solution| - 1].1) == Some(0)
    ensures forall j :: 0 <= j < |Solution| - 1 ==> FirstFailing(Invariants(), Solution[j].1).None?
  {
    FirstFailingAt(Invariants(), State(3, 4), 0);
    forall j | 0 <= j < |Solution| - 1 ensures FirstFailing(Invariants(), Solution[j].1).None? {
      assert Invariants()[0].holds(Solution[j].1);
    }
  }

  /** A search of the puzzle that covered every node it discovered from two
      empty jugs without reporting met a fingerprint collision on one of the
      states of the six pours. */
  lemma PuzzleForcesCollision(g: Search<Jugs>, fp: Jugs -> u64)
    requires g.seen == Prints(fp, g.nodes) && Closed(g, fp, Actions(), Invariants(), 0, |g.nodes|)
    requires g.nodes != [] && g.nodes[0].state == Start
    ensures CollidesOn(fp, g.nodes, Solution)
  {
    SolutionIsExecution();
    SolutionViolates();
    ViolationForcesCollision(g, fp, Actions(), Invariants(), Solution);
  }

  /** A shortest behaviour reaching a violation is no longer than the six
      pours, unless one of their states collides with an explored state. */
  lemma ShortestBeatsSolution(b: seq<(string, Jugs)>, fp: Jugs -> u64, nodes: seq<Pending<Jugs>>)
    requires Shortest(Actions(), Invariants(), Start, b, fp, nodes) && !CollidesOn(fp, nodes, Solution)
    ensures |b| <= |Solution|
  {
    SolutionIsExecution();
    SolutionViolates();
  }

  /** The source's test: register the six actions and the invariant, then
      run from two empty jugs.  A report names the invariant and ends in a
      state whose big jug holds 4 litres, and, unless a state of the six
      pours of `Solution` collides with an explored state, it takes at most
      six pours; a run that ends without one met such a collision. */
  method CheckPuzzle(fp: Jugs -> u64) returns (checker: ModelChecker<Jugs>, out: Outcome<Jugs>)
    ensures out.Violated? ==>
      && out.report.violated == "gallon_never_has_4_liters"
      && Execution(Actions(), Start, out.report.behavior)
      && out.report.behavior[|out.report.behavior| - 1].1.big == 4
    ensures out.Violated? && !CollidesOn(fp, checker.nodes, Solution) ==> |out.report.behavior| <= |Solution|
    ensures out.Exhausted? ==> CollidesOn(fp, checker.nodes, Solution)
  {
    checker := new ModelChecker(fp);
    checker.AddActions(Actions());
    assert checker.actions == Actions();
    var invs := Invariants();
    checker.AddInvariant(invs[0].name, invs[0].holds);
    assert checker.invariants == invs;
    assert checker.nodes == [];
    out := checker.Run(Start);
    if out.Violated? && !CollidesOn(fp, checker.nodes, Solution) {
      ShortestBeatsSolution(out.report.behavior, fp, checker.nodes);
    }
    if out.Exhausted? {
      assert checker.root == 0;
      assert checker.nodes[0].state == Start;
      assert Closed(checker.Snapshot(), fp, Actions(), Invariants(), 0, |checker.nodes|);
      PuzzleForcesCollision(checker.Snapshot(), fp);
    }
  }
}
