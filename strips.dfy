/**
 * The planning collaborator the search works against (pddl4j's problem, state,
 * condition and action types), axiomatised over sets of fact indices.
 *
 * A state is the set of facts that are true. A condition is a pair of fact sets
 * that must be true and false respectively. An action has a precondition and a
 * list of conditional effects; applying the action evaluates every effect's
 * condition on the state BEFORE the action and applies the firing effects in
 * list order, each one first removing its negative facts and then adding its
 * positive ones.
 */
module Strips {
  import opened Wrappers

  /** A fact is identified by its index in the problem's fact table. */
  type Fact = nat

  /** The facts true at one point in time. */
  type State = set<Fact>

  datatype Condition = Condition(positive: set<Fact>, negative: set<Fact>)

  datatype Effect = Effect(positive: set<Fact>, negative: set<Fact>)

  datatype CondEffect = CondEffect(condition: Condition, effect: Effect)

  datatype Action = Action(name: string, precondition: Condition, effects: seq<CondEffect>)

  /** A ground problem: initial state, goal and the ordered action table. */
  datatype Problem = Problem(init: State, goal: Condition, actions: seq<Action>)

  /** `State.satisfy(Condition)`: every positive fact holds and no negative one does. */
  predicate Holds(c: Condition, s: State)
  {
    c.positive <= s && c.negative !! s
  }

  /** `Action.isApplicable(State)`: the precondition holds. */
  predicate Applicable(a: Action, s: State)
  {
    Holds(a.precondition, s)
  }

  /** One effect applied to `s`: negative facts removed, then positive facts added. */
  function ApplyEffect(s: State, e: Effect): State
  {
    (s - e.negative) + e.positive
  }

  /**
   * Applies the effects of `effects` whose conditions hold in `pre` to `cur`,
   * in list order.
   */
  function Fire(pre: State, cur: State, effects: seq<CondEffect>): State
    decreases |effects|
  {
    if effects == [] then cur
    else
      var next := if Holds(effects[0].condition, pre) then ApplyEffect(cur, effects[0].effect) else cur;
      Fire(pre, next, effects[1..])
  }

  /** `State.apply(List<ConditionalEffect>)`: all conditions are read on the pre-state. */
  function ApplyEffects(pre: State, effects: seq<CondEffect>): State
  {
    Fire(pre, pre, effects)
  }

  /** The effect `e` of the list fires in `pre` and mentions fact `f`. */
  predicate Touches(pre: State, e: CondEffect, f: Fact)
  {
    Holds(e.condition, pre) && (f in e.effect.positive || f in e.effect.negative)
  }

  /** A fact that no firing effect mentions keeps the value it had. */
  lemma {:induction false} FireFrame(pre: State, cur: State, effects: seq<CondEffect>, f: Fact)
    requires forall i :: 0 <= i < |effects| ==> !Touches(pre, effects[i], f)
    ensures f in Fire(pre, cur, effects) <==> f in cur
    decreases |effects|
  {
    if effects != [] {
      var next := if Holds(effects[0].condition, pre) then ApplyEffect(cur, effects[0].effect) else cur;
      assert !Touches(pre, effects[0], f);
      assert f in next <==> f in cur;
      forall i | 0 <= i < |effects[1..]| ensures !Touches(pre, effects[1..][i], f) {
        assert effects[1..][i] == effects[i + 1];
      }
      FireFrame(pre, next, effects[1..], f);
    }
  }

  /** A fact that no firing effect of the action mentions is unchanged by the action. */
  lemma ApplyEffectsFrame(pre: State, effects: seq<CondEffect>, f: Fact)
    requires forall i :: 0 <= i < |effects| ==> !Touches(pre, effects[i], f)
    ensures f in ApplyEffects(pre, effects) <==> f in pre
  {
    FireFrame(pre, pre, effects, f);
  }

  /**
   * The last firing effect that mentions a fact decides it: added if that
   * effect adds it, removed if it only deletes it.
   */
  lemma {:induction false} FireLastWriter(pre: State, cur: State, effects: seq<CondEffect>, k: nat, f: Fact)
    requires k < |effects| && Touches(pre, effects[k], f)
    requires forall i :: k < i < |effects| ==> !Touches(pre, effects[i], f)
    ensures f in Fire(pre, cur, effects) <==> f in effects[k].effect.positive
    decreases |effects|
  {
    var next := if Holds(effects[0].condition, pre) then ApplyEffect(cur, effects[0].effect) else cur;
    forall i | k < i + 1 < |effects| && i + 1 > 0 ensures !Touches(pre, effects[1..][i], f) {
      assert effects[1..][i] == effects[i + 1];
    }
    if k == 0 {
      assert f in next <==> f in effects[0].effect.positive;
      FireFrame(pre, next, effects[1..], f);
    } else {
      FireLastWriter(pre, next, effects[1..], k - 1, f);
    }
  }

  /**
   * Runs `plan` from `s`: every action must be applicable in the state reached
   * so far; the result is the final state, or None at the first inapplicable action.
   */
  function Execute(s: State, plan: seq<Action>): Option<State>
    decreases |plan|
  {
    if plan == [] then Some(s)
    else if Applicable(plan[0], s) then Execute(ApplyEffects(s, plan[0].effects), plan[1..])
    else None
  }

  /** Running `xs + ys` is running `xs`, then `ys` from where `xs` ended. */
  lemma {:induction false} ExecuteAppend(s: State, xs: seq<Action>, ys: seq<Action>)
    ensures Execute(s, xs + ys) == (match Execute(s, xs) case None => None case Some(t) => Execute(t, ys))
    decreases |xs|
  {
    if xs != [] {
      assert (xs + ys)[0] == xs[0];
      assert (xs + ys)[1..] == xs[1..] + ys;
      if Applicable(xs[0], s) {
        ExecuteAppend(ApplyEffects(s, xs[0].effects), xs[1..], ys);
      }
    } else {
      assert xs + ys == ys;
    }
  }

  /** A plan solves the problem: it runs from the initial state and ends in a goal state. */
  predicate ValidPlan(p: Problem, plan: seq<Action>)
  {
    var r := Execute(p.init, plan);
    r.Some? && Holds(p.goal, r.value)
  }
}
