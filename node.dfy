/**
 * Search nodes: a state with a back-reference to the node it was produced
 * from, the table index of the action that produced it (-1 for a root), the
 * accumulated cost, the depth and the cached heuristic estimate.
 *
 * A node is never changed once `putAction` has returned it, so it is a value
 * here; the parent back-reference is the nested `parent` field.
 */
module SearchNode {
  import opened Wrappers
  import opened Strips

  /** The action index carried by a root node. */
  const NoAction: int := -1

  datatype Node = Node(state: State, parent: Option<Node>, action: int, cost: nat, depth: nat, heuristic: real)

  /** `n.satisfy(goal)`. */
  predicate Satisfies(n: Node, goal: Condition)
  {
    Holds(goal, n.state)
  }

  /** The root node of an episode: `new Node(init, null, -1, 0, 0, h(init))`. */
  function Root(p: Problem, h: State -> real): Node
  {
    Node(p.init, None, NoAction, 0, 0, h(p.init))
  }

  /**
   * `child` is `parent` after one applicable action of the table: the action
   * index is in range, the action is applicable in the parent's state, the
   * child's state is the parent's with the action's effects applied, cost and
   * depth grow by one and the heuristic is the estimate of the child's state.
   */
  predicate IsChild(p: Problem, h: State -> real, parent: Node, child: Node)
  {
    && child.parent == Some(parent)
    && 0 <= child.action < |p.actions|
    && Applicable(p.actions[child.action], parent.state)
    && child.state == ApplyEffects(parent.state, p.actions[child.action].effects)
    && child.cost == parent.cost + 1
    && child.depth == parent.depth + 1
    && child.heuristic == h(child.state)
  }

  /** `n` is the episode root or is reached from it by a chain of `IsChild` steps. */
  predicate Rooted(p: Problem, h: State -> real, n: Node)
    decreases n
  {
    match n.parent
    case None => n == Root(p, h)
    case Some(q) => IsChild(p, h, q, n) && Rooted(p, h, q)
  }

  /** `n` is `anc` itself or a descendant of `anc` at most `k` steps below it. */
  predicate DescendsIn(p: Problem, h: State -> real, anc: Node, n: Node, k: nat)
    decreases k
  {
    || n == anc
    || (k > 0 && n.parent.Some? && IsChild(p, h, n.parent.value, n) && DescendsIn(p, h, anc, n.parent.value, k - 1))
  }

  /** The parent chain of `n` reaches a node with action -1, and every index on the way is in range. */
  predicate Linked(actions: seq<Action>, n: Node)
    decreases n
  {
    n.action == NoAction || (n.parent.Some? && 0 <= n.action < |actions| && Linked(actions, n.parent.value))
  }

  /** The actions along the parent chain of `n`, root first. */
  function PlanOf(actions: seq<Action>, n: Node): seq<Action>
    requires Linked(actions, n)
    decreases n
  {
    if n.action == NoAction then [] else PlanOf(actions, n.parent.value) + [actions[n.action]]
  }

  /** A node reached from the root has an intact chain. */
  lemma {:induction false} RootedIsLinked(p: Problem, h: State -> real, n: Node)
    requires Rooted(p, h, n)
    ensures Linked(p.actions, n)
    decreases n
  {
    if n.parent.Some? {
      RootedIsLinked(p, h, n.parent.value);
    }
  }

  /** A node's cost is the number of actions on its chain, and its depth equals its cost. */
  lemma {:induction false} PlanLengthIsCost(p: Problem, h: State -> real, n: Node)
    requires Rooted(p, h, n)
    ensures Linked(p.actions, n)
    ensures |PlanOf(p.actions, n)| == n.cost == n.depth
    decreases n
  {
    RootedIsLinked(p, h, n);
    if n.parent.Some? {
      PlanLengthIsCost(p, h, n.parent.value);
    }
  }

  /** The chain of a node reached from the root runs from the initial state to the node's state. */
  lemma {:induction false} PlanOfExecutes(p: Problem, h: State -> real, n: Node)
    requires Rooted(p, h, n)
    ensures Linked(p.actions, n)
    ensures Execute(p.init, PlanOf(p.actions, n)) == Some(n.state)
    decreases n
  {
    RootedIsLinked(p, h, n);
    if n.parent.Some? {
      var q := n.parent.value;
      var a := p.actions[n.action];
      PlanOfExecutes(p, h, q);
      RootedIsLinked(p, h, q);
      ExecuteAppend(p.init, PlanOf(p.actions, q), [a]);
      assert Execute(q.state, [a]) == Some(n.state) by {
        assert [a][1..] == [];
      }
    }
  }

  /** A goal node reached from the root yields a valid plan. */
  lemma GoalNodeGivesValidPlan(p: Problem, h: State -> real, n: Node)
    requires Rooted(p, h, n) && Satisfies(n, p.goal)
    ensures Linked(p.actions, n)
    ensures ValidPlan(p, PlanOf(p.actions, n))
  {
    PlanOfExecutes(p, h, n);
  }

  /** Every action of the chain of `n` comes from the table. */
  lemma {:induction false} PlanOfFromTable(actions: seq<Action>, n: Node)
    requires Linked(actions, n)
    ensures forall a :: a in PlanOf(actions, n) ==> a in actions
    decreases n
  {
    if n.action != NoAction {
      PlanOfFromTable(actions, n.parent.value);
    }
  }

  /** Descending from a node reached from the root keeps the node reached from the root. */
  lemma {:induction false} DescendsInRooted(p: Problem, h: State -> real, anc: Node, n: Node, k: nat)
    requires Rooted(p, h, anc) && DescendsIn(p, h, anc, n, k)
    ensures Rooted(p, h, n)
    decreases k
  {
    if n != anc {
      DescendsInRooted(p, h, anc, n.parent.value, k - 1);
    }
  }

  /** A descendant within `k` steps lies within any larger bound, and its cost is at most `k` above. */
  lemma {:induction false} DescendsInWeaken(p: Problem, h: State -> real, anc: Node, n: Node, k: nat, k': nat)
    requires DescendsIn(p, h, anc, n, k) && k <= k'
    ensures DescendsIn(p, h, anc, n, k')
    ensures anc.cost <= n.cost <= anc.cost + k
    decreases k
  {
    if n != anc {
      DescendsInWeaken(p, h, anc, n.parent.value, k - 1, k' - 1);
    }
  }
}
