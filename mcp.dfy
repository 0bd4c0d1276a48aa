/**
 * The Monte-Carlo random-walk planner: the applicable-action filter, node
 * expansion, the bounded random-walk procedure, the search loop with its
 * stall counter and restarts, plan extraction and the support predicate.
 */
module MCP {
  import opened Wrappers
  import opened Strips
  import opened SearchNode
  import opened Random

  /** Number of walk attempts per random-walk call. */
  const NUM_WALK: nat := 2000
  /** A walk takes at most LENGTH_WALK - 1 steps. */
  const LENGTH_WALK: nat := 10
  /** Iterations without improvement before the search restarts. */
  const MAX_STEPS: nat := 7

  /** The three tunables the search reads. */
  datatype Tunables = Tunables(numWalk: nat, lengthWalk: nat, maxSteps: nat)

  const Defaults: Tunables := Tunables(NUM_WALK, LENGTH_WALK, MAX_STEPS)

  /** `Double.MAX_VALUE`, the starting value of the best heuristic of a random walk. */
  const DOUBLE_MAX: real := 179769313486231570814527423731704356798070567525844996598917476803157260780028538760589558632766878171540458953514382464234321326889464182768467546703537516986049910576551282076245490090389328944075868508455133942304583236903222948165808559332123348274797826204144723168738177180919299881250404026184124858368.0

  /** How many times `for (j = 1; j < lengthWalk; j++)` runs. */
  function Steps(lengthWalk: nat): nat
  {
    if lengthWalk >= 1 then lengthWalk - 1 else 0
  }

  // ---------------------------------------------------------------------------
  // Applicable actions

  /** The actions of `actions` applicable in `s`, in table order. */
  function Applicables(actions: seq<Action>, s: State): seq<Action>
    decreases |actions|
  {
    if actions == [] then []
    else
      var last := actions[|actions| - 1];
      Applicables(actions[..|actions| - 1], s) + (if Applicable(last, s) then [last] else [])
  }

  /** An action is kept exactly when it is in the table and applicable. */
  lemma {:induction false} ApplicablesMembers(actions: seq<Action>, s: State, a: Action)
    ensures a in Applicables(actions, s) <==> a in actions && Applicable(a, s)
    decreases |actions|
  {
    if actions != [] {
      var n := |actions| - 1;
      ApplicablesMembers(actions[..n], s, a);
      assert actions == actions[..n] + [actions[n]];
    }
  }

  /** The table positions of the actions `Applicables` keeps, ascending. */
  function ApplicableIndices(actions: seq<Action>, s: State): (idx: seq<nat>)
    ensures |idx| == |Applicables(actions, s)|
    ensures forall k :: 0 <= k < |idx| ==> idx[k] < |actions| && Applicables(actions, s)[k] == actions[idx[k]]
    ensures forall k, l :: 0 <= k < l < |idx| ==> idx[k] < idx[l]
    decreases |actions|
  {
    if actions == [] then []
    else
      var n := |actions| - 1;
      var prev := ApplicableIndices(actions[..n], s);
      assert Applicables(actions, s) == Applicables(actions[..n], s) + if Applicable(actions[n], s) then [actions[n]] else [];
      assert forall k :: 0 <= k < |prev| ==> actions[..n][prev[k]] == actions[prev[k]];
      if Applicable(actions[n], s) then prev + [n] else prev
  }

  /** Every applicable position of the table is among the kept ones. */
  lemma {:induction false} ApplicableIndicesComplete(actions: seq<Action>, s: State, i: nat)
    requires i < |actions| && Applicable(actions[i], s)
    ensures i in ApplicableIndices(actions, s)
    decreases |actions|
  {
    var n := |actions| - 1;
    var prev := ApplicableIndices(actions[..n], s);
    assert ApplicableIndices(actions, s) == if Applicable(actions[n], s) then prev + [n] else prev;
    if i < n {
      assert actions[..n][i] == actions[i];
      ApplicableIndicesComplete(actions[..n], s, i);
    }
  }

  /** `getActions(p, n)`: a fresh list of the table's actions applicable in `n`. */
  method GetActions(p: Problem, n: Node) returns (list: array<Action>)
    ensures fresh(list)
    ensures list[..] == Applicables(p.actions, n.state)
  {
    var acc: seq<Action> := [];
    for i := 0 to |p.actions|
      invariant acc == Applicables(p.actions[..i], n.state)
    {
      assert p.actions[..i + 1][..i] == p.actions[..i];
      if Applicable(p.actions[i], n.state) {
        acc := acc + [p.actions[i]];
      }
    }
    assert p.actions[..|p.actions|] == p.actions;
    list := new Action[|acc|](k requires 0 <= k < |acc| => acc[k]);
  }

  /** `pickRandomAction(list)`: shuffles the list in place and returns its first element. */
  method PickRandomAction(list: array<Action>, rng: Rng) returns (a: Action)
    requires list.Length > 0
    modifies list, rng
    ensures list[..] == Shuffled(old(list[..]), rng.draws, old(rng.pos), list.Length)
    ensures multiset(list[..]) == multiset(old(list[..]))
    ensures a == list[0] && a in old(list[..])
  {
    Shuffle(list, rng);
    a := list[0];
    assert a in multiset(list[..]);
  }

  // ---------------------------------------------------------------------------
  // Node expansion

  /** `List.indexOf`: the first position of `a`, or -1 when it is absent. */
  function IndexOf(actions: seq<Action>, a: Action): (r: int)
    ensures -1 <= r < |actions|
    ensures r == -1 <==> a !in actions
    ensures r >= 0 ==> actions[r] == a && forall j :: 0 <= j < r ==> actions[j] != a
    decreases |actions|
  {
    if actions == [] then -1
    else if actions[0] == a then 0
    else
      var k := IndexOf(actions[1..], a);
      if k == -1 then -1 else k + 1
  }

  /**
   * `putAction(p, n, a, h)`: a new node whose state is a copy of `n`'s with
   * `a`'s effects applied; `n` itself is a value and stays as it was.
   */
  function PutAction(p: Problem, n: Node, a: Action, h: State -> real): (child: Node)
    ensures child.parent == Some(n)
    ensures child.cost == n.cost + 1 && child.depth == n.depth + 1
    ensures a in p.actions ==> 0 <= child.action < |p.actions| && p.actions[child.action] == a
    ensures a in p.actions ==> forall i :: 0 <= i < child.action ==> p.actions[i] != a
    ensures a !in p.actions ==> child.action == NoAction
    ensures child.state == ApplyEffects(n.state, a.effects)
    ensures child.heuristic == h(child.state)
    ensures a in p.actions && Applicable(a, n.state) ==> IsChild(p, h, n, child)
  {
    var s := ApplyEffects(n.state, a.effects);
    Node(s, Some(n), IndexOf(p.actions, a), n.cost + 1, n.depth + 1, h(s))
  }

  // ---------------------------------------------------------------------------
  // Plan extraction

  /** `extractPlan(node, p)`: the actions on the parent chain, root first. */
  method ExtractPlan(p: Problem, node: Node) returns (plan: seq<Action>)
    requires Linked(p.actions, node)
    ensures plan == PlanOf(p.actions, node)
    ensures node.action == NoAction ==> plan == []
  {
    var n := node;
    plan := [];
    while n.action != NoAction
      invariant Linked(p.actions, n)
      invariant PlanOf(p.actions, node) == PlanOf(p.actions, n) + plan
      decreases n
    {
      var a := p.actions[n.action];
      plan := [a] + plan;
      n := n.parent.value;
    }
  }

  // ---------------------------------------------------------------------------
  // Random walk

  /**
   * The index of the terminal a random walk keeps: the running minimum starts
   * at DOUBLE_MAX and is replaced only by a strictly lower heuristic.
   */
  function BestIndex(ts: seq<Node>): (r: Option<nat>)
    ensures r.None? <==> forall j :: 0 <= j < |ts| ==> ts[j].heuristic >= DOUBLE_MAX
    ensures r.Some? ==> r.value < |ts| && ts[r.value].heuristic < DOUBLE_MAX
    ensures r.Some? ==> forall j :: 0 <= j < |ts| ==> ts[r.value].heuristic <= ts[j].heuristic
    ensures r.Some? ==> forall j :: 0 <= j < r.value ==> ts[j].heuristic > ts[r.value].heuristic
    decreases |ts|
  {
    if ts == [] then None
    else
      var prev := BestIndex(ts[..|ts| - 1]);
      var bound := if prev.None? then DOUBLE_MAX else ts[prev.value].heuristic;
      if ts[|ts| - 1].heuristic < bound then Some(|ts| - 1) else prev
  }

  /** The node a random walk returns when no attempt reaches the goal. */
  function BestTerminal(s: Node, ts: seq<Node>): Node
  {
    match BestIndex(ts)
    case None => s
    case Some(k) => ts[k]
  }

  /**
   * No node on the parent chain strictly between `s` and `n` is a goal node:
   * a walk that went from `s` down to `n` passed no goal on the way.
   */
  ghost predicate GoalFreeBetween(p: Problem, s: Node, n: Node)
    decreases n
  {
    n == s ||
    match n.parent
    case None => false
    case Some(q) => q == s || (!Satisfies(q, p.goal) && GoalFreeBetween(p, s, q))
  }

  /**
   * What an attempt that ran to its end stops on: a node at most
   * `lengthWalk - 1` steps below `s`, not a goal node unless it is `s` itself,
   * and either a dead end or exactly `lengthWalk - 1` steps below `s`.
   */
  ghost predicate AttemptEnd(p: Problem, h: State -> real, cfg: Tunables, s: Node, t: Node)
  {
    && DescendsIn(p, h, s, t, Steps(cfg.lengthWalk))
    && (t == s || !Satisfies(t, p.goal))
    && GoalFreeBetween(p, s, t)
    && (t.cost == s.cost + Steps(cfg.lengthWalk) || Applicables(p.actions, t.state) == [])
  }

  /**
   * The body of one step of a walk: the applicable actions of `n`; None when
   * there are none, otherwise the child of `n` by a randomly picked one.
   */
  method RandomStep(p: Problem, n: Node, h: State -> real, rng: Rng) returns (next: Option<Node>)
    modifies rng
    ensures next.None? <==> Applicables(p.actions, n.state) == []
    ensures next.Some? ==> IsChild(p, h, n, next.value)
    ensures next.Some? ==> next.value.action == IndexOf(p.actions, p.actions[next.value.action])
  {
    var actions := GetActions(p, n);
    if actions.Length == 0 {
      return None;
    }
    var a := PickRandomAction(actions, rng);
    ApplicablesMembers(p.actions, n.state, a);
    next := Some(PutAction(p, n, a, h));
  }

  /**
   * One attempt of `randomWalkAlgo` (its inner loop): at most
   * `lengthWalk - 1` steps from `s`; it stops early at a dead end, and with
   * `reached` set at the first goal node.
   */
  method Attempt(p: Problem, s: Node, h: State -> real, cfg: Tunables, rng: Rng)
    returns (sPrim: Node, reached: bool)
    modifies rng
    ensures reached ==> sPrim != s && Satisfies(sPrim, p.goal) && DescendsIn(p, h, s, sPrim, Steps(cfg.lengthWalk))
    ensures reached ==> GoalFreeBetween(p, s, sPrim)
    ensures !reached ==> AttemptEnd(p, h, cfg, s, sPrim)
  {
    sPrim := s;
    var j := 1;
    while j < cfg.lengthWalk
      invariant 1 <= j <= (if cfg.lengthWalk >= 1 then cfg.lengthWalk else 1)
      invariant DescendsIn(p, h, s, sPrim, j - 1)
      invariant sPrim.cost == s.cost + (j - 1)
      invariant sPrim == s || !Satisfies(sPrim, p.goal)
      invariant GoalFreeBetween(p, s, sPrim)
      decreases cfg.lengthWalk - j
    {
      var next := RandomStep(p, sPrim, h, rng);
      if next.None? {
        break;
      }
      sPrim := next.value;
      if Satisfies(sPrim, p.goal) {
        DescendsInWeaken(p, h, s, sPrim, j, Steps(cfg.lengthWalk));
        return sPrim, true;
      }
      j := j + 1;
    }
    DescendsInWeaken(p, h, s, sPrim, j - 1, Steps(cfg.lengthWalk));
    reached := false;
  }

  /**
   * How a walk from `s` ends: either at a goal node below `s` with no goal
   * node before it on the way down, or, after all `numWalk` attempts ran to
   * their end on `ts`, at the best of those end nodes.
   */
  ghost predicate WalkOutcome(p: Problem, h: State -> real, cfg: Tunables, s: Node, r: Node, ts: seq<Node>)
  {
    || (r != s && Satisfies(r, p.goal) && GoalFreeBetween(p, s, r))
    || (|ts| == cfg.numWalk && (forall t :: t in ts ==> AttemptEnd(p, h, cfg, s, t)) && r == BestTerminal(s, ts))
  }

  /**
   * `randomWalkAlgo(p, s, h)`: `numWalk` attempts from `s`. It returns the
   * first goal node an attempt reaches; otherwise the end node of lowest
   * heuristic (the earliest on ties), or `s` when no end node is below
   * DOUBLE_MAX. `terminals` (ghost) lists, in order, the end node of every
   * attempt that ran to its end.
   */
  method RandomWalk(p: Problem, s: Node, h: State -> real, cfg: Tunables, rng: Rng)
    returns (r: Node, ghost terminals: seq<Node>)
    modifies rng
    ensures DescendsIn(p, h, s, r, Steps(cfg.lengthWalk))
    ensures |terminals| <= cfg.numWalk
    ensures forall t :: t in terminals ==> AttemptEnd(p, h, cfg, s, t)
    ensures WalkOutcome(p, h, cfg, s, r, terminals)
  {
    var hMin := DOUBLE_MAX;
    var sMin: Option<Node> := None;
    terminals := [];
    for i := 0 to cfg.numWalk
      invariant |terminals| == i
      invariant forall t :: t in terminals ==> AttemptEnd(p, h, cfg, s, t)
      invariant sMin == (match BestIndex(terminals) case None => None case Some(k) => Some(terminals[k]))
      invariant hMin == (if sMin.None? then DOUBLE_MAX else sMin.value.heuristic)
    {
      var sPrim, reached := Attempt(p, s, h, cfg, rng);
      if reached {
        return sPrim, terminals;
      }
      ghost var before := terminals;
      terminals := terminals + [sPrim];
      assert terminals[..|terminals| - 1] == before;
      if sPrim.heuristic < hMin {
        hMin := sPrim.heuristic;
        sMin := Some(sPrim);
      }
    }
    r := if sMin.None? then s else sMin.value;
    assert r == BestTerminal(s, terminals);
    if sMin.Some? {
      assert AttemptEnd(p, h, cfg, s, terminals[BestIndex(terminals).value]);
    }
  }

  // ---------------------------------------------------------------------------
  // Search loop

  /** The loop variables `n`, `counter` and `hMin` at the head of one iteration. */
  datatype Snapshot = Snapshot(n: Node, counter: nat, hMin: real)

  /** The restart test: the stall counter is exhausted or `n` is a dead end. */
  predicate NeedsRestart(p: Problem, cfg: Tunables, st: Snapshot)
  {
    st.counter >= cfg.maxSteps || Applicables(p.actions, st.n.state) == []
  }

  /**
   * One turn of the loop from `a` to `b`: `a.n` is not a goal node; the walk
   * starts at a fresh root when a restart is due (counter back to 0, hMin
   * untouched) and at `a.n` otherwise; `b.n` lies within the walk length
   * below that start; hMin and counter then follow the improvement rule.
   */
  ghost predicate Iteration(p: Problem, h: State -> real, cfg: Tunables, a: Snapshot, b: Snapshot)
  {
    var restart := NeedsRestart(p, cfg, a);
    var start := if restart then Root(p, h) else a.n;
    var counter := if restart then 0 else a.counter;
    && !Satisfies(a.n, p.goal)
    && DescendsIn(p, h, start, b.n, Steps(cfg.lengthWalk))
    && (exists ts :: WalkOutcome(p, h, cfg, start, b.n, ts))
    && if b.n.heuristic < a.hMin then b.hMin == b.n.heuristic && b.counter == 0
       else b.hMin == a.hMin && b.counter == counter + 1
  }

  /** A run stops at the first goal node: only its last snapshot can hold one. */
  lemma RunStopsAtGoal(p: Problem, h: State -> real, cfg: Tunables, trace: seq<Snapshot>)
    requires Run(p, h, cfg, trace)
    ensures forall i :: 0 <= i < |trace| - 1 ==> !Satisfies(trace[i].n, p.goal)
  {
    forall i | 0 <= i < |trace| - 1 ensures !Satisfies(trace[i].n, p.goal) {
      assert Iteration(p, h, cfg, trace[i], trace[i + 1]);
    }
  }

  /** Every consecutive pair of the trace is one loop turn. */
  ghost predicate Run(p: Problem, h: State -> real, cfg: Tunables, trace: seq<Snapshot>)
  {
    forall i :: 0 <= i < |trace| - 1 ==> Iteration(p, h, cfg, trace[i], trace[i + 1])
  }

  /**
   * `monteCarlo(problem)` with an iteration budget `fuel`: None when the
   * budget runs out before a goal node is reached. `trace` (ghost) records
   * the loop variables at the head of every iteration.
   */
  method MonteCarlo(p: Problem, h: State -> real, cfg: Tunables, rng: Rng, fuel: nat)
    returns (plan: Option<seq<Action>>, ghost trace: seq<Snapshot>)
    modifies rng
    ensures 1 <= |trace| <= fuel + 1
    ensures trace[0] == Snapshot(Root(p, h), 0, h(p.init))
    ensures Run(p, h, cfg, trace)
    ensures forall i :: 0 <= i < |trace| ==> Rooted(p, h, trace[i].n)
    ensures plan.Some? ==> Satisfies(trace[|trace| - 1].n, p.goal)
    ensures plan.Some? ==> Linked(p.actions, trace[|trace| - 1].n)
                           && plan.value == PlanOf(p.actions, trace[|trace| - 1].n)
    ensures plan.Some? ==> ValidPlan(p, plan.value) && forall a :: a in plan.value ==> a in p.actions
    ensures plan.None? ==> |trace| == fuel + 1 && !Satisfies(trace[fuel].n, p.goal)
    ensures Holds(p.goal, p.init) ==> plan == Some([])
  {
    var n := Root(p, h);
    var hMin := n.heuristic;
    var counter: nat := 0;
    var iterations: nat := 0;
    trace := [Snapshot(n, counter, hMin)];
    while !Satisfies(n, p.goal)
      invariant iterations == |trace| - 1 <= fuel
      invariant trace[0] == Snapshot(Root(p, h), 0, h(p.init))
      invariant trace[|trace| - 1] == Snapshot(n, counter, hMin)
      invariant Run(p, h, cfg, trace)
      invariant forall i :: 0 <= i < |trace| ==> Rooted(p, h, trace[i].n)
      invariant Holds(p.goal, p.init) ==> n == Root(p, h)
      decreases fuel - iterations
    {
      if iterations == fuel {
        return None, trace;
      }
      ghost var before := Snapshot(n, counter, hMin);
      var restart := counter >= cfg.maxSteps;
      if !restart {
        var actions := GetActions(p, n);
        restart := actions.Length == 0;
      }
      if restart {
        n := Root(p, h);
        counter := 0;
      }
      ghost var start := n;
      ghost var terminals;
      n, terminals := RandomWalk(p, n, h, cfg, rng);
      DescendsInRooted(p, h, start, n, Steps(cfg.lengthWalk));
      assert WalkOutcome(p, h, cfg, start, n, terminals);
      if n.heuristic < hMin {
        hMin := n.heuristic;
        counter := 0;
      } else {
        counter := counter + 1;
      }
      assert Iteration(p, h, cfg, before, Snapshot(n, counter, hMin));
      trace := trace + [Snapshot(n, counter, hMin)];
      iterations := iterations + 1;
    }
    RootedIsLinked(p, h, n);
    GoalNodeGivesValidPlan(p, h, n);
    PlanOfFromTable(p.actions, n);
    var actions := ExtractPlan(p, n);
    plan := Some(actions);
  }

  // ---------------------------------------------------------------------------
  // Properties of the loop

  /** hMin never increases over a run. */
  lemma {:induction false} HMinNonIncreasing(p: Problem, h: State -> real, cfg: Tunables, trace: seq<Snapshot>)
    requires Run(p, h, cfg, trace)
    ensures forall i, j :: 0 <= i <= j < |trace| ==> trace[j].hMin <= trace[i].hMin
    decreases |trace|
  {
    if |trace| > 1 {
      var front := trace[..|trace| - 1];
      assert Run(p, h, cfg, front) by {
        forall i | 0 <= i < |front| - 1 ensures Iteration(p, h, cfg, front[i], front[i + 1]) {
          assert front[i] == trace[i] && front[i + 1] == trace[i + 1];
        }
      }
      HMinNonIncreasing(p, h, cfg, front);
      var last := |trace| - 1;
      assert Iteration(p, h, cfg, trace[last - 1], trace[last]);
      forall i, j | 0 <= i <= j < |trace| ensures trace[j].hMin <= trace[i].hMin {
        if j == last && i < last {
          assert front[i] == trace[i] && front[last - 1] == trace[last - 1];
        } else if j < last {
          assert front[i] == trace[i] && front[j] == trace[j];
        }
      }
    }
  }

  /** hMin is never above the heuristic of any node the loop has held, restarts included. */
  lemma {:induction false} HMinIsBestSeen(p: Problem, h: State -> real, cfg: Tunables, trace: seq<Snapshot>)
    requires |trace| > 0 && trace[0].hMin == trace[0].n.heuristic
    requires Run(p, h, cfg, trace)
    ensures forall i, k :: 0 <= k <= i < |trace| ==> trace[i].hMin <= trace[k].n.heuristic
    decreases |trace|
  {
    if |trace| > 1 {
      var front := trace[..|trace| - 1];
      assert Run(p, h, cfg, front) by {
        forall i | 0 <= i < |front| - 1 ensures Iteration(p, h, cfg, front[i], front[i + 1]) {
          assert front[i] == trace[i] && front[i + 1] == trace[i + 1];
        }
      }
      HMinIsBestSeen(p, h, cfg, front);
      var last := |trace| - 1;
      assert Iteration(p, h, cfg, trace[last - 1], trace[last]);
      forall i, k | 0 <= k <= i < |trace| ensures trace[i].hMin <= trace[k].n.heuristic {
        if i < last {
          assert front[i] == trace[i] && front[k] == trace[k];
        } else if k < last {
          assert front[k] == trace[k] && front[last - 1] == trace[last - 1];
        }
      }
    }
  }

  /**
   * The bookkeeping of one turn: hMin only moves down, and only to the new
   * node's heuristic when that is strictly lower; the counter is 0 after an
   * improvement and otherwise one more than before, counted from 0 after a
   * restart; so it never exceeds max(maxSteps, 1).
   */
  lemma IterationBookkeeping(p: Problem, h: State -> real, cfg: Tunables, a: Snapshot, b: Snapshot)
    requires Iteration(p, h, cfg, a, b)
    ensures b.hMin <= a.hMin
    ensures b.hMin != a.hMin ==> b.hMin == b.n.heuristic < a.hMin
    ensures b.hMin == a.hMin <==> b.n.heuristic >= a.hMin
    ensures b.counter == 0 <==> b.n.heuristic < a.hMin
    ensures NeedsRestart(p, cfg, a) && b.n.heuristic >= a.hMin ==> b.counter == 1
    ensures !NeedsRestart(p, cfg, a) && b.n.heuristic >= a.hMin ==> b.counter == a.counter + 1
    ensures b.counter <= if cfg.maxSteps >= 1 then cfg.maxSteps else 1
  {
  }

  // ---------------------------------------------------------------------------
  // Example problems

  /** The action `make_q`: needs p (fact 0), adds q (fact 1) and deletes p. */
  const MakeQ: Action := Action("make_q", Condition({0}, {}), [CondEffect(Condition({}, {}), Effect({1}, {0}))])

  /** Initial state {p}, goal {q}, the single action `make_q`. */
  const MakeQProblem: Problem := Problem({0}, Condition({1}, {}), [MakeQ])

  /** From the state {q} no non-empty plan over the make_q table runs. */
  lemma MakeQStuck(rest: seq<Action>)
    requires forall a :: a in rest ==> a in MakeQProblem.actions
    ensures Execute({1}, rest).Some? ==> rest == []
  {
    if rest != [] {
      assert rest[0] in rest;
    }
  }

  /** In the make_q problem the only valid plan over the table is `[make_q]`. */
  lemma MakeQOnlyPlan(plan: seq<Action>)
    requires forall a :: a in plan ==> a in MakeQProblem.actions
    requires ValidPlan(MakeQProblem, plan)
    ensures plan == [MakeQ]
  {
    var p := MakeQProblem;
    assert !Holds(p.goal, p.init);
    assert plan[0] in plan;
    assert ApplyEffects(p.init, MakeQ.effects) == {1};
    assert Execute(p.init, plan) == Execute({1}, plan[1..]);
    MakeQStuck(plan[1..]);
  }

  /** With no actions and an unmet goal, no plan over the table is valid. */
  lemma NoActionsNoPlan(p: Problem, plan: seq<Action>)
    requires p.actions == [] && !Holds(p.goal, p.init)
    requires forall i :: 0 <= i < |plan| ==> plan[i] in p.actions
    ensures !ValidPlan(p, plan)
  {
  }

  /** No attempt from the root of the make_q problem runs to its end. */
  lemma MakeQNoAttemptEnd(h: State -> real, cfg: Tunables, t: Node)
    requires cfg.lengthWalk >= 2
    ensures !AttemptEnd(MakeQProblem, h, cfg, Root(MakeQProblem, h), t)
  {
  }

  /**
   * In the make_q problem, a loop turn from the root always ends on a goal
   * node: the only step below the root reaches {q}, so no attempt can run to
   * its end without reaching the goal.
   */
  lemma MakeQFirstTurn(h: State -> real, cfg: Tunables, a: Snapshot, b: Snapshot)
    requires cfg.numWalk >= 1 && cfg.lengthWalk >= 2
    requires a.n == Root(MakeQProblem, h)
    requires Iteration(MakeQProblem, h, cfg, a, b)
    ensures Satisfies(b.n, MakeQProblem.goal)
  {
    var p := MakeQProblem;
    var root := Root(p, h);
    var ts :| WalkOutcome(p, h, cfg, root, b.n, ts);
    if |ts| > 0 {
      assert ts[0] in ts;
      MakeQNoAttemptEnd(h, cfg, ts[0]);
    }
  }

  /** A make_q run that takes a turn stops after exactly one, on a goal node. */
  lemma MakeQRunIsOneTurn(h: State -> real, cfg: Tunables, trace: seq<Snapshot>)
    requires cfg.numWalk >= 1 && cfg.lengthWalk >= 2
    requires |trace| >= 2 && trace[0].n == Root(MakeQProblem, h)
    requires Run(MakeQProblem, h, cfg, trace)
    ensures |trace| == 2 && Satisfies(trace[1].n, MakeQProblem.goal)
  {
    MakeQFirstTurn(h, cfg, trace[0], trace[1]);
    RunStopsAtGoal(MakeQProblem, h, cfg, trace);
  }

  /**
   * `monteCarlo` on the make_q problem finds `[make_q]` in its first turn,
   * for any tunables that allow at least one attempt of at least one step.
   */
  method MakeQSearch(h: State -> real, cfg: Tunables, rng: Rng, fuel: nat) returns (plan: Option<seq<Action>>)
    requires cfg.numWalk >= 1 && cfg.lengthWalk >= 2
    requires fuel >= 1
    modifies rng
    ensures plan == Some([MakeQ])
  {
    ghost var trace;
    plan, trace := MonteCarlo(MakeQProblem, h, cfg, rng, fuel);
    assert !Satisfies(trace[0].n, MakeQProblem.goal);
    MakeQRunIsOneTurn(h, cfg, trace);
    MakeQOnlyPlan(plan.value);
  }

  /** `monteCarlo` with no actions and an unmet goal spends its whole budget and finds nothing. */
  method NoActionsSearch(p: Problem, h: State -> real, cfg: Tunables, rng: Rng, fuel: nat)
    returns (plan: Option<seq<Action>>, ghost trace: seq<Snapshot>)
    requires p.actions == [] && !Holds(p.goal, p.init)
    modifies rng
    ensures plan.None? && |trace| == fuel + 1
  {
    plan, trace := MonteCarlo(p, h, cfg, rng, fuel);
    NoActionsNoPlan(p, if plan.Some? then plan.value else []);
  }

  // ---------------------------------------------------------------------------
  // Support predicate and settings

  /** The requirement keys of pddl4j's `RequireKey`; the ones the planner accepts are not told apart. */
  datatype RequireKey =
    | ActionCosts | Constraints | ContinousEffects | DerivedPredicates | DurativeActions
    | DurationInequalities | Fluents | GoalUtilities | MethodConstraints | NumericFluents
    | ObjectFluents | Preferences | TimedInitialLiterals | Hierarchy
    | Other(name: string)

  /** The keys the planner refuses. */
  const Unsupported: set<RequireKey> :=
    {ActionCosts, Constraints, ContinousEffects, DerivedPredicates, DurativeActions,
     DurationInequalities, Fluents, GoalUtilities, MethodConstraints, NumericFluents,
     ObjectFluents, Preferences, TimedInitialLiterals, Hierarchy}

  /** `isSupported(problem)` on the problem's requirement set. */
  function IsSupported(requirements: set<RequireKey>): (r: bool)
    ensures r <==> requirements !! Unsupported
    ensures r <==> forall k :: k in requirements ==> k.Other?
  {
    if || ActionCosts in requirements
       || Constraints in requirements
       || ContinousEffects in requirements
       || DerivedPredicates in requirements
       || DurativeActions in requirements
       || DurationInequalities in requirements
       || Fluents in requirements
       || GoalUtilities in requirements
       || MethodConstraints in requirements
       || NumericFluents in requirements
       || ObjectFluents in requirements
       || Preferences in requirements
       || TimedInitialLiterals in requirements
       || Hierarchy in requirements
    then false
    else true
  }

  /** The weight setting of the planner. */
  class Settings {
    var heuristicWeight: real

    constructor ()
      ensures heuristicWeight == 1.0
    {
      heuristicWeight := 1.0;
    }

    /** `setHeuristicWeight(weight)`: refuses a weight <= 0 and leaves the setting as it was. */
    method SetHeuristicWeight(weight: real) returns (result: Outcome<string>)
      modifies this
      ensures result == if weight <= 0.0 then Fail("Weight <= 0") else Pass
      ensures heuristicWeight == if weight <= 0.0 then old(heuristicWeight) else weight
    {
      if weight <= 0.0 {
        return Fail("Weight <= 0");
      }
      heuristicWeight := weight;
      result := Pass;
    }
  }
}
