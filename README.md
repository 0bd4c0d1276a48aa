# Monte-Carlo random-walk planner (MCP) in Dafny

This project models the search engine of the MCP planner, a pddl4j planner
that follows the pure random-walk method of "Monte-Carlo Exploration for
Deterministic Planning". Given a ground STRIPS/ADL problem (initial state,
goal, ordered action table), the planner:

- starts from a root node for the initial state;
- runs bounded random walks from the current node;
- keeps the best heuristic value seen (`hMin`) and a stall counter;
- restarts from the initial state when the counter reaches `MAX_STEPS` or the
  current node is a dead end;
- when it reaches a goal node, walks the parent chain back to the root to build
  the plan.

The files:

- `wrappers.dfy`: `Option` (Java `null`) and `Outcome` (a thrown exception).
- `strips.dfy` (module `Strips`): the pddl4j types the planner calls into,
  written over sets of fact indices.
  - States, conditions, actions with conditional effects.
  - `ApplyEffects`: every effect's condition is read on the state before the
    action. The firing effects are then applied in list order, each one
    removing its negative facts and then adding its positive ones.
  - `Execute`: runs a plan step by step and checks applicability.
  - `ValidPlan`: the plan runs from the initial state and ends in a goal state.
- `node.dfy` (module `SearchNode`): the search node and its parent chain.
  - `IsChild`: one valid expansion step.
  - `Rooted`: the node is reached from the episode's root.
  - `DescendsIn`: the node lies within k steps below an ancestor.
  - `PlanOf`: the actions on the chain, root first.
  - Lemmas: a rooted chain is a runnable plan, and its length is the node's cost.
- `rng.dfy` (module `Random`): the random source and `Collections.shuffle`.
  - The random source is a fixed stream of draws plus a read position. The
    Java code calls the one-argument `Collections.shuffle`, which draws from a
    hidden `Random` whose seed cannot be set, so its runs cannot be
    reproduced; fixing the stream here is a modelling choice that makes every
    draw a parameter.
  - `Shuffle` is the swap loop `Collections.shuffle` runs on an `ArrayList`.
- `mcp.dfy` (module `MCP`): the methods of the `MCP` class.
  - `getActions`, `pickRandomAction`, `putAction`, `extractPlan`,
    `randomWalkAlgo`, `monteCarlo` and `isSupported`.
  - `randomWalkAlgo` is `RandomWalk`; its inner loop (one attempt) is `Attempt`,
    and one step of that loop (filter, pick, expand) is `RandomStep`.
  - The weight setter.
  - The tunables `NUM_WALK = 2000`, `LENGTH_WALK = 10`, `MAX_STEPS = 7`,
    passed as a `Tunables` value; `Defaults` holds these three numbers.

The Java `Node` class is not part of this model. Its fields are inferred from
its constructor calls: state, parent, action index (-1 for a root), cost,
depth and heuristic. Nothing changes a node after `putAction` returns it, so
a node is a Dafny value and its parent is a nested field. `setHeuristic` is
part of building the child. A heuristic is a parameter `h: State -> real`.
The random source is an object the walk methods modify.

Behaviour of the code that the model keeps, where a reader might expect otherwise:

- A random walk falls back to its start node only when no attempt ends on a
  node whose heuristic is below `Double.MAX_VALUE`. It does not fall back
  merely because no attempt improved on the start node.
- Actions are picked by shuffling the whole list of applicable actions and
  taking the first one. This is not a single index draw.
- `monteCarlo` never returns `null`. Without a budget it loops until it
  finds a goal node.
- Two firing effects of one action that disagree on a fact are not
  order-independent: the later one in the list wins (`FireLastWriter`).

## Model

| member | source | states |
|---|---|---|
| `Strips.FireFrame` | MCP/src/fr/uga/pddl4j/examples/asp/MCP.java:427 | applying a list of conditional effects leaves unchanged every fact that no firing effect mentions |
| `Strips.ApplyEffectsFrame` | MCP/src/fr/uga/pddl4j/examples/asp/MCP.java:426-427 | in the copied state, a fact that no firing effect of the action mentions keeps its old value |
| `Strips.FireLastWriter` | MCP/src/fr/uga/pddl4j/examples/asp/MCP.java:427 | conditions are read on the pre-state, and the last firing effect that mentions a fact decides it: true if that effect adds it, false if it only deletes it |
| `Strips.ExecuteAppend` | MCP/src/fr/uga/pddl4j/examples/asp/MCP.java:352-361 | running `xs + ys` step by step is running `xs`, then `ys` from the state `xs` reached, and it fails if either part fails |
| `SearchNode.RootedIsLinked` | MCP/src/fr/uga/pddl4j/examples/asp/MCP.java:352-361 | the parent chain of every node reached from the root ends at an action -1, and every action index on it lies in the table, so plan extraction never fails |
| `SearchNode.PlanLengthIsCost` | MCP/src/fr/uga/pddl4j/examples/asp/MCP.java:425-431 | for a node reached from the root, the number of actions on its chain equals its cost, and its depth equals its cost |
| `SearchNode.PlanOfExecutes` | MCP/src/fr/uga/pddl4j/examples/asp/MCP.java:352-361 | the actions on the chain of a rooted node are applicable one after another from the initial state, and they end exactly in that node's state |
| `SearchNode.GoalNodeGivesValidPlan` | MCP/src/fr/uga/pddl4j/examples/asp/MCP.java:329-342 | the chain of a rooted goal node is a valid plan: it runs from the initial state and ends in a goal state |
| `SearchNode.PlanOfFromTable` | MCP/src/fr/uga/pddl4j/examples/asp/MCP.java:356 | every action of an extracted plan is an entry of the problem's action table |
| `SearchNode.DescendsInRooted` | MCP/src/fr/uga/pddl4j/examples/asp/MCP.java:373-382 | a node the walk reaches from a rooted node by valid steps is itself reached from the root |
| `SearchNode.DescendsInWeaken` | MCP/src/fr/uga/pddl4j/examples/asp/MCP.java:375 | a descendant within k steps is also within any larger bound, and its cost is between the ancestor's cost and that cost plus k |
| `Random.Rng.NextInt` | MCP/src/fr/uga/pddl4j/examples/asp/MCP.java:413 | a draw lies in [0, bound), is the next value of the stream modulo the bound, and advances the stream by one |
| `Random.ShuffledPermutes` | MCP/src/fr/uga/pddl4j/examples/asp/MCP.java:413 | the shuffle's output has the same length and the same multiset of elements as its input |
| `Random.Exchange` | MCP/src/fr/uga/pddl4j/examples/asp/MCP.java:413 | the swap step of the shuffle exchanges two positions of the array in place and changes nothing else |
| `Random.Shuffle` | MCP/src/fr/uga/pddl4j/examples/asp/MCP.java:413 | reorders the array in place to the order the draws determine, a permutation of the old contents, and uses size-1 draws |
| `MCP.ApplicablesMembers` | MCP/src/fr/uga/pddl4j/examples/asp/MCP.java:398-405 | an action is in the filtered list exactly when it is in the table and applicable in the state |
| `MCP.ApplicableIndices` | MCP/src/fr/uga/pddl4j/examples/asp/MCP.java:401-403 | the filtered list is a subsequence of the table: its k-th element is the table entry at the k-th of a strictly increasing list of positions |
| `MCP.ApplicableIndicesComplete` | MCP/src/fr/uga/pddl4j/examples/asp/MCP.java:401-403 | every table position whose action is applicable is among the kept positions, so the filter drops nothing applicable, duplicates included |
| `MCP.GetActions` | MCP/src/fr/uga/pddl4j/examples/asp/MCP.java:398-405 | returns a fresh list whose contents are the applicable table actions in table order; the table, a value, is left as it was |
| `MCP.PickRandomAction` | MCP/src/fr/uga/pddl4j/examples/asp/MCP.java:412-415 | shuffles only the given fresh list, producing a permutation of it, and returns its new first element, which was a member of the list |
| `MCP.IndexOf` | MCP/src/fr/uga/pddl4j/examples/asp/MCP.java:428 | returns the first table position holding the action, or -1 exactly when the action is not in the table |
| `MCP.PutAction` | MCP/src/fr/uga/pddl4j/examples/asp/MCP.java:425-431 | the child's parent is n; cost and depth are n's plus one; the action field is the first table index holding a (-1 if absent); the state is n's state with a's effects applied; the heuristic is the estimate of that state; for an applicable table action the child is a valid expansion step of n |
| `MCP.ExtractPlan` | MCP/src/fr/uga/pddl4j/examples/asp/MCP.java:352-361 | returns the actions of the parent chain in root-to-node order, and the empty plan for a root node |
| `MCP.BestIndex` | MCP/src/fr/uga/pddl4j/examples/asp/MCP.java:371-389 | the kept end node is the earliest one of least heuristic below Double.MAX_VALUE; there is none exactly when every end node's heuristic is at least Double.MAX_VALUE |
| `MCP.RandomStep` | MCP/src/fr/uga/pddl4j/examples/asp/MCP.java:376-380 | one step: None exactly when no action is applicable; otherwise the result is a valid child of the node by an applicable table action, whose action field is the first table position holding that action |
| `MCP.Attempt` | MCP/src/fr/uga/pddl4j/examples/asp/MCP.java:374-383 | one attempt either stops at the first goal node it meets, other than s, within lengthWalk-1 steps and with no goal node between s and it, or ends on a non-goal node below s, with no goal node on the way, that is a dead end or exactly lengthWalk-1 steps down |
| `MCP.RandomWalk` | MCP/src/fr/uga/pddl4j/examples/asp/MCP.java:370-390 | the result is s or a descendant within lengthWalk-1 valid steps; it is either a goal node an attempt meets first on its own path (no goal node lies between s and it), or, after all numWalk attempts ran to their end, the earliest least-heuristic attempt end below Double.MAX_VALUE, or s when there is none |
| `MCP.MonteCarlo` | MCP/src/fr/uga/pddl4j/examples/asp/MCP.java:323-343 | starts with a root, counter 0 and hMin = h(init); each iteration restarts when needed, walks, and updates hMin and counter by the improvement rule, and the walk's outcome (a goal node met first on its attempt's path, or the best end of numWalk complete attempts) is kept in the trace; every node held is reached from the root; a returned plan is the goal node's chain and is valid over the table; None only when the budget is spent; an initial goal state gives the empty plan |
| `MCP.HMinNonIncreasing` | MCP/src/fr/uga/pddl4j/examples/asp/MCP.java:335-340 | over a whole run, hMin never increases, restarts included |
| `MCP.HMinIsBestSeen` | MCP/src/fr/uga/pddl4j/examples/asp/MCP.java:327-337 | at every point of a run, hMin is at most the heuristic of every node the loop has held so far, including nodes from before a restart |
| `MCP.IterationBookkeeping` | MCP/src/fr/uga/pddl4j/examples/asp/MCP.java:330-340 | in one iteration, hMin only changes when the new node is strictly lower, and then takes its value; the counter is 0 exactly on an improvement; otherwise it is 1 after a restart and one more than before without one; the counter never exceeds max(MAX_STEPS, 1), so with MAX_STEPS below 2^31 (it is 7) the Java int counter cannot overflow |
| `MCP.MakeQOnlyPlan` | MCP/src/fr/uga/pddl4j/examples/asp/MCP.java:329-342 | for initial state {p}, goal {q} and the single action make_q (pre p, add q, delete p), the only valid plan over the table is [make_q] |
| `MCP.NoActionsNoPlan` | MCP/src/fr/uga/pddl4j/examples/asp/MCP.java:329-342 | with an empty action table and an unmet goal, no plan over the table is valid, so the search can only spend its budget |
| `SearchNode.Root` | MCP/src/fr/uga/pddl4j/examples/asp/MCP.java:326 | the root node: the initial state, no parent, action -1, cost 0, depth 0 and the estimate of the initial state (a definition; the restart at MCP/src/fr/uga/pddl4j/examples/asp/MCP.java:331 builds the same node) |
| `Strips.ApplyEffects` | MCP/src/fr/uga/pddl4j/examples/asp/MCP.java:426-427 | the state of a child: the parent's state with the action's conditional effects applied, conditions read on the parent's state (a definition; its properties are `FireFrame`, `ApplyEffectsFrame` and `FireLastWriter`) |
| `MCP.Applicables` | MCP/src/fr/uga/pddl4j/examples/asp/MCP.java:398-405 | the applicable table actions in table order (a definition; its properties are `ApplicablesMembers`, `ApplicableIndices` and `ApplicableIndicesComplete`) |
| `MCP.GoalFreeBetween` | MCP/src/fr/uga/pddl4j/examples/asp/MCP.java:381-382 | no node on the parent chain strictly between s and n satisfies the goal (a definition, used by the walk's contracts) |
| `MCP.WalkOutcome` | MCP/src/fr/uga/pddl4j/examples/asp/MCP.java:370-390 | the two ways a walk ends: the first goal node met, or the best end of numWalk attempts that ran to their end (a definition, used by `RandomWalk` and `Iteration`) |
| `MCP.NeedsRestart` | MCP/src/fr/uga/pddl4j/examples/asp/MCP.java:330 | a restart is due when the counter reaches MAX_STEPS or no action is applicable at the current node (a definition) |
| `MCP.Iteration` | MCP/src/fr/uga/pddl4j/examples/asp/MCP.java:330-340 | one loop turn: the current node is not a goal; restart rule; the new node is a walk outcome from the start node; hMin and counter follow the improvement rule (a definition, proved of every turn by `MonteCarlo`) |
| `MCP.RunStopsAtGoal` | MCP/src/fr/uga/pddl4j/examples/asp/MCP.java:329 | in a run, no snapshot before the last holds a goal node: the loop stops at the first goal node it holds |
| `MCP.MakeQNoAttemptEnd` | MCP/src/fr/uga/pddl4j/examples/asp/MCP.java:374-383 | in the make_q problem no attempt from the root can run to its end: its first step reaches the goal |
| `MCP.MakeQFirstTurn` | MCP/src/fr/uga/pddl4j/examples/asp/MCP.java:329-340 | in the make_q problem the first loop turn from the root ends on a goal node |
| `MCP.MakeQRunIsOneTurn` | MCP/src/fr/uga/pddl4j/examples/asp/MCP.java:329-342 | a make_q run with at least one turn has exactly one turn, ending on a goal node |
| `MCP.MakeQSearch` | MCP/src/fr/uga/pddl4j/examples/asp/MCP.java:323-343 | `monteCarlo` on the make_q problem returns the plan [make_q] whenever it may take a turn, for any tunables with numWalk >= 1 and lengthWalk >= 2 (W = 10, L = 2 and the defaults included) |
| `MCP.NoActionsSearch` | MCP/src/fr/uga/pddl4j/examples/asp/MCP.java:323-343 | with an empty action table and an unmet goal, `monteCarlo` finds no plan and spends its whole budget |
| `MCP.BestTerminal` | MCP/src/fr/uga/pddl4j/examples/asp/MCP.java:384-389 | the node a walk returns when no attempt reaches a goal: the end node `BestIndex` picks, or s when there is none (a definition; its properties are those of `BestIndex`) |
| `MCP.AttemptEnd` | MCP/src/fr/uga/pddl4j/examples/asp/MCP.java:374-383 | how an attempt that ran to its end stops: within lengthWalk-1 valid steps below s, passing no goal node, and at a dead end or exactly lengthWalk-1 steps down (a definition; `Attempt` ensures it) |
| `MCP.Run` | MCP/src/fr/uga/pddl4j/examples/asp/MCP.java:329-341 | a whole run of the search loop: every consecutive pair of snapshots is one `Iteration` (a definition; `MonteCarlo` ensures it, and `HMinNonIncreasing`, `HMinIsBestSeen` and `RunStopsAtGoal` are its properties) |
| `Random.Shuffled` | MCP/src/fr/uga/pddl4j/examples/asp/MCP.java:413 | the order the swap loop of `Collections.shuffle` leaves the list in, given the draws (a definition; its property is `ShuffledPermutes`) |
| `MCP.IsSupported` | MCP/src/fr/uga/pddl4j/examples/asp/MCP.java:440-456 | false exactly when the requirements include one of the 14 refused keys (ACTION_COSTS … HIERARCHY), and true when every requirement is one of the others |
| `MCP.Settings.constructor` | MCP/src/fr/uga/pddl4j/examples/asp/MCP.java:71 | the heuristic weight starts at 1 |
| `MCP.Settings.SetHeuristicWeight` | MCP/src/fr/uga/pddl4j/examples/asp/MCP.java:118-123 | the result is Fail("Weight <= 0") when the weight is <= 0, and then the setting is unchanged; otherwise the result is Pass and the weight is stored |

## Left out

- MonteCarlo: takes an iteration budget `fuel` and returns None when it runs out. The code has no bound and loops for ever on a problem it cannot solve.
- RandomWalk: on an early exit, the contract says the result is the first goal node of its attempt, within lengthWalk-1 valid steps of s. It does not say which path the draws pick. The ghost list of complete attempt ends it reports passes no goal, but it is not tied to the attempts that ran, so the contract does not rule out skipping a goal that an earlier attempt reached.
- IterationBookkeeping: the counter is an unbounded natural. In Java it is an `int` compared against the `long` MAX_STEPS, so a MAX_STEPS of 2^31 or more would let it wrap; that case is not modelled.
- `main` and `launch` (file listing, CSV output, comparison with HSP): I/O and benchmarking.
- The timing and logging in `solve`: wall clock and logging only. `solve` just returns the result of `monteCarlo`.
- `instantiate`: parsing and grounding are done by pddl4j.
- `getConfiguration`, `setConfiguration`, `getDefaultConfiguration`, `setHeuristic`, `getHeuristic`, `getHeuristicWeight` and `hasValidConfiguration`: string-property plumbing. The search never reads the weight.
- Heuristic internals (`StateHeuristic.getInstance`, `estimate`): foreign code. The heuristic is any function from states to reals, and the goal is fixed per problem.
- Floating point: heuristic values, `hMin` and `Double.MAX_VALUE` are exact reals, and NaN is not modelled. In Java a NaN weight passes the setter's `weight <= 0` test and is stored; reals have no NaN. A node's cost is a whole number here; pddl4j stores it as a double, and the values stay whole.
- pddl4j `State.apply` and `Action.isApplicable`: foreign code, written over fact sets as described above. `Action` equality (used by `indexOf`) is value equality.
- `java.util.Random`: replaced by a stream of draws (see `Random.Rng`). The linear congruential generator itself is not modelled.
- Mutable static tunables: the search takes them as a `Tunables` value of naturals. A negative `long` setting is not modelled. A NUM_WALK or LENGTH_WALK of 2^31 or more wraps Java's `int` loop index, and the walk then never ends unless it meets a goal; not modelled, the loops here count over unbounded naturals and always stop.
- Sharing and aliasing of `Node` and `State` objects: nodes and states are values, so a child's state cannot alias its parent's.
- `isSupported` reads a `Problem`'s requirement set. The model takes that set directly, and all keys the planner accepts are one constructor, `Other`.
- MCP/src/pddl/script.py: plotting of benchmark results.
