# In-code model checker, modelled in Dafny

This project models the explicit-state model checker of `in-code-model-checker`
and the two specifications its tests run it on.

The engine is a breadth-first explorer. It keeps:

- a FIFO queue of pending nodes;
- a set of 64-bit fingerprints, used to drop states that were already discovered;
- registered actions, each producing successor states. An action either
  mutates its own clone of the popped state, or branches through
  `there_exists`, which proposes one fresh clone per element of an iterator;
- registered invariants, checked on every popped node.

When an invariant fails, the engine rebuilds the node's behaviour by walking
parent links back to the initial node, and reports it.

The files:

- `explore.dfy` (module `Explore`) describes the engine as values.
  - A `Search` snapshot holds an arena of `Pending` nodes, the queue of arena
    indices and the seen-set.
  - `Offer`, `OfferAll` and `ExpandAll` say how one proposal, one action and
    one whole expansion change a snapshot.
  - The predicates state the invariants the engine keeps: a parent tree,
    fingerprints recorded exactly for the arena, fresh fingerprints for every
    child, the queue as the arena's tail, breadth-first depths, and processed
    nodes whose successors are all fingerprinted.
  - The lemmas prove these invariants are preserved, that reports are real
    counterexamples, that an exhausted run is sound up to fingerprint
    collisions, and that no counterexample free of collisions is shorter
    than the one reported.
- `model_checker.dfy` (module `Checker`) is the engine itself: a class with
  the source's fields (`queue`, `current`, `currentAction`, `seen`, `actions`,
  `invariants`) plus the arena. Its methods update those fields in place and
  are proved against the functions of `Explore`.
- `die_hard.dfy` models the 3/5 water-jug puzzle with checked `u8` arithmetic.
  It also models the test that runs the engine on the puzzle.
- `ordering.dfy` holds the order `sort_unstable` sorts tokens in, and the one
  ascending listing of a finite set of keys.
- `money_transfer.dfy` models the two-phase transfer protocol:
  - the balance and program-counter maps and the three operations;
  - the consistency invariant;
  - conservation of money;
  - the canonical hash input and its round trip;
  - the test's instance of the engine.

The fingerprint (`hash` over `DefaultHasher`) is an arbitrary function
`fp: S -> u64` given to the engine's constructor. It is never assumed to be
injective. A whole-run result assumes only that the states of the execution it
talks about are not shadowed: each such state shares its fingerprint with no
explored state other than itself (`Unshadowed`, `NoCollisionOn`, `CollidesOn`
in `Explore`). Nothing is assumed about the rest of the state type, so the
assumption can hold for a real 64-bit hash even when the state type is
infinite. The source prints the behaviour and exits the process on a
violation; here `Run` returns `Violated(report)`, or `Exhausted` when the
queue empties.

As coded, the money-transfer test's run reports `consistency`. Both of the
test's requests can pass `start_transfer`'s funds check
(src/money_transfer.rs:37-40) before either completes, and
`complete_transfer` debits without checking again (src/money_transfer.rs:48).
That takes Alice's balance to -1, so the registered `consistency` invariant
fails. `MoneyTransfer.RaceOverdraws` proves this behaviour is reachable and
violating. `MoneyTransfer.CheckTransfers` proves that a run of the engine
that ends reports a violation of `consistency`, no longer than the race,
unless one of the race's five states shares its fingerprint with a different
explored state.

## Model

| member | source | states |
|---|---|---|
| Checker.ModelChecker.constructor | src/model_checker.rs:43-52 | A new engine has an empty queue, seen-set, arena, action list and invariant list, no current node and action index 0, and satisfies the engine invariant |
| Checker.ModelChecker.AddAction | src/model_checker.rs:54-64 | Registering an action appends it after the ones already registered, so actions are later tried in registration order; the engine invariant is kept |
| Checker.ModelChecker.AddActions | src/model_checker.rs:54-64 | A chain of `action` calls leaves the action list extended by exactly the given actions, in order |
| Checker.ModelChecker.AddInvariant | src/model_checker.rs:66-76 | Registering an invariant appends it, so invariants are checked in registration order |
| Checker.ModelChecker.Run | src/model_checker.rs:78-89 | The initial state's fingerprint is recorded and exactly one node, labelled "Init" and without parent, is added as the run's root. A report is an execution of the registered actions from the initial state whose last state fails the named invariant, the first failing one in registration order. An exhausted run leaves the queue empty with every node of the run processed. The arena and seen-set only grow. For a run from an empty engine, no execution from the initial state that reaches a violation and has no state shadowed by an explored one is shorter than the reported behaviour |
| Checker.ModelChecker.Drain | src/model_checker.rs:86-89 | The loop steps until the queue is empty or a step reports; it terminates because every iteration either records a new fingerprint among the 2^64 possible or shortens the queue; outcomes as for `Run`, including the shortest report when the run's root is node 0 |
| Checker.ModelChecker.Step | src/model_checker.rs:91-125 | Pops the front node. When an invariant fails on it, the report names the first failing invariant and carries that node's behaviour, and nothing else changes (no action runs, `current` and `currentAction` keep their values). Otherwise the node becomes current and the new state is exactly the expansion of the popped node by every action in order, with the engine invariant kept and the popped node processed; `currentAction` is then the last action's index, or unchanged when no action is registered |
| Checker.ModelChecker.CheckInvariants | src/model_checker.rs:94-100 | Returns the index of the first registered invariant the state violates, or none when all hold |
| Checker.ModelChecker.Expand | src/model_checker.rs:102-124 | Makes the node current and runs every registered action on the same popped state, in registration order; the result equals `ExpandAll` of the snapshot, and `currentAction` ends at the last action's index, or unchanged when no action is registered |
| Checker.ModelChecker.RunAction | src/model_checker.rs:104-123 | One round of the action loop: the action's branches, in iteration order, are proposed, then the directly mutated clone |
| Checker.ModelChecker.ThereExists | src/model_checker.rs:127-145 | Every branch is `f` applied to a fresh clone of the popped node's state (not to the action's copy), proposed in iteration order under the running action's name with the popped node as parent; an empty iterator changes nothing; every branch's fingerprint ends up in the seen-set |
| Checker.ModelChecker.Propose | src/model_checker.rs:114-123 | A produced state is enqueued, as a new node, exactly when its fingerprint was not yet seen, and its fingerprint is recorded at the same moment |
| Explore.FirstFailing | src/model_checker.rs:94-100 | None exactly when every invariant holds; otherwise an index whose invariant fails while every earlier one holds |
| Explore.FirstFailingAt | src/model_checker.rs:94-100 | When invariant k fails and all earlier ones hold, k is the invariant reported |
| Explore.Behavior | src/model_checker.rs:156-168 | A node's behaviour has as many pairs as its parent chain, ends with the node's own (label, state), and starts with an "Init" label |
| Explore.Reversed | src/model_checker.rs:165 | Element k of the reversal is element n-1-k of the input |
| Explore.BuildBehavior | src/model_checker.rs:156-168 | Walking the parent links and reversing yields exactly the node's ancestor chain, root first |
| Explore.BehaviorIsExecution | src/model_checker.rs:156-168 | The behaviour of any node of a run is an execution of the registered actions from the run's initial state: each step is a successor of the previous state under the action it names |
| Explore.ReportIsCounterexample | src/model_checker.rs:94-99 | The report of a failing node is an execution from the initial state whose last state violates the reported invariant, the first failing one |
| Explore.SeedStartsRun | src/model_checker.rs:78-84 | Seeding an idle engine yields a queue of exactly the new "Init" node without parent, records its fingerprint, keeps everything already there, and establishes the engine invariant |
| Explore.EmptyIsBetweenSteps | src/model_checker.rs:43-52 | The empty engine satisfies the engine invariant |
| Explore.ProducedGrows | src/model_checker.rs:59-62 | Registering another action keeps every recorded parent-to-child step explained by a registered action |
| Explore.PopStartsExpansion | src/model_checker.rs:92 | The popped index is the first unprocessed node, the queue being the arena's tail; popping it starts an expansion with the engine invariant kept |
| Explore.ExpansionEnds | src/model_checker.rs:104-124 | The invariant during an expansion implies the invariant between steps |
| Explore.StepStops | src/model_checker.rs:92-100 | A step that stops at a failing node leaves the engine invariant intact, with the popped node in the arena |
| Explore.StepExpands | src/model_checker.rs:102-124 | After every action ran on a node that passes every invariant, the engine is between steps again, only proposals were added, and one more node is processed |
| Explore.OfferGrows | src/model_checker.rs:114-123 | A proposal only adds a node together with exactly one new fingerprint and one queue entry, and afterwards the state's fingerprint is seen |
| Explore.OfferAllGrows | src/model_checker.rs:133-143 | A batch of proposals only extends the search, and afterwards every proposed state's fingerprint is seen |
| Explore.ExpandAllGrows | src/model_checker.rs:104-124 | Running the first n actions only extends the search and fingerprints every successor of each of them |
| Explore.OfferKeepsExpanding | src/model_checker.rs:114-123 | Proposing a successor of the popped node keeps the invariant: tree, fingerprints, freshness, explained steps, queue as tail, breadth-first depths |
| Explore.OfferAllKeepsExpanding | src/model_checker.rs:127-145 | Proposing any batch of successors of the popped node keeps the invariant |
| Explore.ExpandAllKeepsExpanding | src/model_checker.rs:104-124 | Running any prefix of the registered actions on the popped node keeps the invariant |
| Explore.FinishExpansion | src/model_checker.rs:104-124 | Once every action ran on a node that passes every invariant, that node is processed: all its successors are fingerprinted |
| Explore.ClosedGrows | src/model_checker.rs:115-116 | Processed nodes stay processed while the arena and seen-set grow |
| Explore.OfferAllLabels | src/model_checker.rs:127-145 | Every node a batch of proposals adds carries the proposing action's name, has the popped node as parent and holds one of the proposed states |
| Explore.DirectCopyEnqueuesNothing | src/model_checker.rs:106-116 | Proposing an unmodified clone of an arena state leaves the search unchanged, because its fingerprint is already seen |
| Explore.QueueFingerprintsDistinct | src/model_checker.rs:114-123 | No two queue entries share a fingerprint |
| Explore.QueueBreadthFirst | src/model_checker.rs:86-124 | Queue entries' depths never decrease from front to back, and the last is at most one level deeper than the first |
| Explore.PathIsExplored | src/model_checker.rs:86-124 | A run that processed its whole arena has discovered the last state of every path from its initial state whose states are not shadowed by an explored state |
| Explore.ExhaustedIsSafe | src/model_checker.rs:86-89 | After an exhausted run from an empty engine, every state reached along a path whose states are not shadowed by an explored state satisfies every invariant |
| Explore.ViolationForcesCollision | src/model_checker.rs:86-124 | If some execution reaches a state violating an invariant, a run that processed its whole arena without reporting met a collision on that execution: one of its states shares its fingerprint with a different explored state |
| Explore.StepShallow | src/model_checker.rs:102-124 | Expanding the popped node keeps the breadth-first bound: every successor of a processed node lies on a node at most one level deeper than it |
| Explore.ReachedNear | src/model_checker.rs:86-124 | When no state of the execution is shadowed, step j of an execution from the initial state lies on a processed node of depth at most j+1, unless the node being checked is already that shallow |
| Explore.ShortestFor | src/model_checker.rs:94-99 | Any execution from the initial state that ends in a violation and has no shadowed state is at least as long as the behaviour of the first popped node that fails an invariant |
| Explore.ReportIsShortest | src/model_checker.rs:86-124 | In a run from an empty engine, the reported behaviour is no longer than any execution from the initial state that reaches a violation and has no state shadowed by an explored one |
| Explore.SeenBounded | src/model_checker.rs:29 | A set of 64-bit fingerprints has at most 2^64 elements, the bound that makes `run` terminate |
| DieHard.FillSmall | src/die_hard.rs:9-11 | The small jug holds 3 and the big one is unchanged; the capacity bound is kept |
| DieHard.FillBig | src/die_hard.rs:13-15 | The big jug holds 5 and the small one is unchanged; the capacity bound is kept |
| DieHard.EmptySmall | src/die_hard.rs:17-19 | The small jug holds 0 and the big one is unchanged; the capacity bound is kept |
| DieHard.EmptyBig | src/die_hard.rs:21-23 | The big jug holds 0 and the small one is unchanged; the capacity bound is kept |
| DieHard.Min | src/die_hard.rs:26 | The result is one of the two arguments and at most both |
| DieHard.MoveFromBigToSmall | src/die_hard.rs:25-29 | Conserves the total; afterwards the small jug is full or the big one empty; the small jug only fills; `3 - small` cannot underflow under the capacity bound, and the bound is kept |
| DieHard.MoveFromSmallToBig | src/die_hard.rs:31-35 | Conserves the total; afterwards the big jug is full or the small one empty; the big jug only fills; `5 - big` cannot underflow under the capacity bound, and the bound is kept |
| DieHard.GallonNeverHas4Liters | src/die_hard.rs:37-39 | Holds exactly when the big jug does not contain 4 litres |
| DieHard.SolutionIsExecution | src/die_hard.rs:47-60 | fill_big, move_from_big_to_small, empty_small, move_from_big_to_small, fill_big, move_from_big_to_small is a behaviour of the registered actions from two empty jugs |
| DieHard.SolutionViolates | src/die_hard.rs:37-39 | That behaviour ends in (3, 4), the first of its states that the registered invariant rejects |
| DieHard.PuzzleForcesCollision | src/die_hard.rs:47-60 | A run of the puzzle that processed every discovered node without reporting met a collision on one of the six pours' states |
| DieHard.ShortestBeatsSolution | src/die_hard.rs:47-60 | When no state of the six pours is shadowed, a shortest behaviour reaching a violation has at most their seven states |
| DieHard.CheckPuzzle | src/die_hard.rs:47-61 | The test's run either reports "gallon_never_has_4_liters" with a behaviour of the six actions from (0, 0) ending with 4 litres in the big jug, or met a collision on a state of the six pours; when none of those states is shadowed, the report takes at most six pours |
| Ordering.LessIrreflexive | src/money_transfer.rs:12 | The order the keys are sorted by is irreflexive |
| Ordering.LessTransitive | src/money_transfer.rs:12 | The order the keys are sorted by is transitive |
| Ordering.LessTotal | src/money_transfer.rs:12 | Any two distinct keys are ordered one way or the other |
| Ordering.SortedKeys | src/money_transfer.rs:11-12 | The result is strictly ascending and lists exactly the given keys, each once |
| Ordering.Sort | src/money_transfer.rs:12 | `sort_unstable` on distinct keys: the result is strictly ascending and holds exactly the given keys, as many of them |
| Ordering.Insert | src/money_transfer.rs:12 | Placing a key not yet listed into an ascending listing keeps it ascending and adds exactly that key |
| Ordering.AscendingUnique | src/money_transfer.rs:12 | Two ascending listings of the same keys are equal, so sorting does not depend on the order the keys were collected in |
| MoneyTransfer.Deposit | src/money_transfer.rs:27-30 | Adds `amount` to the named existing account only; every other balance and all program counters are unchanged, and so are the accounts |
| MoneyTransfer.StartTransfer | src/money_transfer.rs:32-41 | Never changes balances. It is a no-op unless the request is at "start_transfer", and then moves it to "complete_transfer" exactly when `from` can cover `amount`. Other requests and the request ids are untouched, and every program counter only advances |
| MoneyTransfer.CompleteTransfer | src/money_transfer.rs:43-52 | A no-op unless the request is at "complete_transfer". Otherwise it debits `from` and credits `to` by `amount` and marks the request "done", touching no other balance or request. The accounts and request ids are unchanged, and every program counter only advances |
| MoneyTransfer.DepositTotal | src/money_transfer.rs:27-30 | `deposit` adds exactly `amount` to the total of all balances |
| MoneyTransfer.CompleteTransferTotal | src/money_transfer.rs:43-52 | `complete_transfer` preserves the total of all balances |
| MoneyTransfer.TotalUpdate | src/money_transfer.rs:28-29 | Changing one existing balance changes the total by the difference |
| MoneyTransfer.CompleteTransferOverdraws | src/money_transfer.rs:48 | From a consistent state, completing a request whose funds were spent in the meantime yields an inconsistent one; `complete_transfer` does not preserve consistency by itself |
| MoneyTransfer.Consistency | src/money_transfer.rs:54-56 | Holds exactly when no account's balance is negative |
| MoneyTransfer.CollectKeys | src/money_transfer.rs:11 | Collecting a map's keys lists exactly its keys, each once |
| MoneyTransfer.FeedBalances | src/money_transfer.rs:13-16 | Writes each listed account's name and then its balance, in the listed order |
| MoneyTransfer.FeedPcs | src/money_transfer.rs:20-23 | Writes each listed request id and then its program counter, in the listed order |
| MoneyTransfer.HashInput | src/money_transfer.rs:9-25 | The canonical hash input: every balance entry in ascending account order, then every program-counter entry in ascending request order; `HashInputDecodes` reads the state back from it |
| MoneyTransfer.FeedHasher | src/money_transfer.rs:9-25 | Whatever order the maps yield their keys in, sorting them leaves the one ascending listing (`AscendingUnique`), so the hasher is fed exactly `HashInput` |
| MoneyTransfer.BalanceFeedDecodes | src/money_transfer.rs:13-16 | Reading back a balance feed recovers exactly the listed entries and stops where the program-counter part begins |
| MoneyTransfer.PcFeedDecodes | src/money_transfer.rs:20-23 | Reading back a program-counter feed recovers exactly the listed entries |
| MoneyTransfer.FeedDecodes | src/money_transfer.rs:9-25 | Feeding every balance and then every program counter, in any listing of the keys, records the whole state |
| MoneyTransfer.HashInputDecodes | src/money_transfer.rs:9-25 | Reading the hash input back gives the state it came from |
| MoneyTransfer.HashInputCanonical | src/money_transfer.rs:9-25 | Two states feed the hasher the same input exactly when they are equal, whatever order their maps were built in |
| MoneyTransfer.DepositOne | src/money_transfer.rs:70-72 | A deposit of 1 into the named account, all other balances, the accounts and the program counters unchanged; a token that names no account leaves the state unchanged |
| MoneyTransfer.StartOne | src/money_transfer.rs:75 | `start_transfer` of 1 from Alice to Bob for request r: balances unchanged, only r's program counter may move, only forward, and a request at "start_transfer" moves exactly when Alice holds at least 1; a request at any other stage, or a missing key, leaves the state unchanged |
| MoneyTransfer.CompleteOne | src/money_transfer.rs:78 | `complete_transfer` of 1 from Alice to Bob for request r: a request at "complete_transfer" becomes "done", Alice loses 1 and Bob gains 1, and no other balance changes; only r's program counter may move, only forward; a request at any other stage, or a missing key, leaves the state unchanged |
| MoneyTransfer.DepositAction | src/money_transfer.rs:69-73 | The action leaves its own copy unchanged; every existing account has a branch that deposits 1 into it, and every branch is such a deposit |
| MoneyTransfer.DepositBranches | src/money_transfer.rs:70-72 | Every account yields a deposit branch and every branch is a deposit into an existing account |
| MoneyTransfer.StartAction | src/money_transfer.rs:74-76 | The action leaves its own copy unchanged; its branches are starting request 1 and then request 2 |
| MoneyTransfer.CompleteAction | src/money_transfer.rs:77-79 | The action leaves its own copy unchanged; its branches are completing request 1 and then request 2 |
| MoneyTransfer.StartBranch | src/money_transfer.rs:74-76 | Each of the test's request ids yields a `start_transfer` successor of any state |
| MoneyTransfer.CompleteBranch | src/money_transfer.rs:77-79 | Each of the test's request ids yields a `complete_transfer` successor of any state |
| MoneyTransfer.StartsThenCompletes | src/money_transfer.rs:74-79 | Starting requests 1 and 2 and then completing 1 and 2 is a behaviour of the registered actions from any state |
| MoneyTransfer.RaceIsExecution | src/money_transfer.rs:64-89 | That race is a behaviour from the test's initial state |
| MoneyTransfer.RaceOverdraws | src/money_transfer.rs:54-56 | The race leaves Alice at -1, so the registered `consistency` invariant is reported |
| MoneyTransfer.ShortestBeatsRace | src/money_transfer.rs:64-89 | When no state of the race is shadowed, a shortest behaviour reaching a violation has at most its five states |
| MoneyTransfer.TransfersForceCollision | src/money_transfer.rs:64-89 | A run of the transfers that processed every discovered node without reporting met a collision on one of the race's states |
| MoneyTransfer.CheckTransfers | src/money_transfer.rs:64-89 | The test's run either reports "consistency" with a behaviour of the three actions from the initial state ending in an inconsistent state, or met a collision on a state of the race; when none of those states is shadowed, the report is no longer than the race |

## Left out

- `hash` and `DefaultHasher` (src/model_checker.rs:34-40) are left out. The fingerprint is a constructor parameter `fp: S -> u64` that may map distinct states to one value. The engine only ever compares fingerprints. Every result about a whole run assumes only that the states it talks about are not shadowed by a different explored state with the same fingerprint.
- `println!` and `std::process::exit(1)` on a violation are console I/O and process exit. `Run` returns `Violated(report)` with the invariant's name and the behaviour instead.
- `RefCell`, `Rc`, `Box` and the deep clone of the `previous` chain are ownership plumbing. Nodes live in an arena, and `previous` is the parent's arena index. `current` holds the popped node's index, not a copy of it.
- Actions receive the engine itself (`&mut ModelChecker`) and call back into it. This re-entrancy is not modelled. An action is a function from the popped state to its `there_exists` branches, in iteration order, and the copy it mutated directly. `Step` proposes the branches first and the direct copy after, which is the source's order. `there_exists`'s rule `f` is applied when the branch list is built.
- The unused `ThereExists` trait (src/model_checker.rs:148-154) and `Debug` formatting are not modelled.
- Checker.ModelChecker.Run requires an empty queue. In the source a run either empties the queue or exits the process, so a second `run` always starts from an empty queue. The seen-set of an earlier run is kept, as in the source.
- HashMap iteration order is unspecified in Rust. The `deposit` action's branches over `balances.iter()` are taken in ascending account order. `CollectKeys` leaves the order open; sorting removes it.
- The bytes `Hash` writes for strings and integers are not modelled. The hash input is a sequence of tokens, each an account name or an integer.
- Balances and request ids are Rust `i64`. They are unbounded here, so overflow of `*balance += amount` is not modelled.
- `unwrap()` on a missing key panics in the source. `Deposit`, `StartTransfer` and `CompleteTransfer` require the key instead. The test's actions (`DepositOne`, `StartOne`, `CompleteOne`) leave the state unchanged when a key is missing. That cannot happen from the test's initial state, since no operation adds or removes keys.
- DieHard `u8` arithmetic that would leave 0..255 panics in the source. The type `u8` makes the verifier check every such operation. `MoveFromBigToSmall` and `MoveFromSmallToBig` require the bound under which `3 - small` and `5 - big` do not underflow, and the engine's state type `Jugs` carries the capacity bound.
- MoneyTransfer.DepositTotal and MoneyTransfer.CompleteTransferTotal state the total as the sum over any listing of the accounts that names each exactly once. The total does not depend on which listing is used.
- Checker.ModelChecker.Run promises a shortest report only for a run from an empty engine (root 0), and only against executions none of whose states is shadowed by an explored state. A collision can drop a state that lies on every shortest path.
- `sort_unstable` is modelled by `Sort`, an insertion sort. Only its result is modelled: the keys come from a map and are distinct, so any sort yields the one ascending listing.
- Termination of `run` is proved from the 2^64 bound on fingerprints. It does not rely on a finite state space.
- `GallonNeverHas4Liters`, `Consistency` and `HashInput` have no contracts of their own. The first two are the source's conditions. The partners of `HashInput` are `HashInputDecodes` and `FeedHasher`.
