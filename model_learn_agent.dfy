/** The model-learning agent (pcog/model_learn_agent.py): an exploration
    counter and the perceptions seen so far, wrapped around a Utile Suffix
    Memory, and a POMDP model built once and then reused. The model builder
    and the solver are outside this module; the model's type is a parameter. */
module ModelLearnAgent {
  import opened Wrappers
  import opened UsmTree
  import opened Usm

  class Agent<K(==), M> {
    const usm: UtileSuffixMemory<K>
    const maxExplorationIterations: int
    var iterations: nat
    var perceptions: seq<K>
    var model: Option<M>

    ghost predicate Valid()
      reads this, usm
    {
      usm.Valid()
    }

    /** `__init__`: the given memory, or a fresh one with the default
        configuration (window 5, fringe depth 2, gamma 0.3, no known actions or
        observations); an exploration budget of 30 unless one is given; no
        iteration, no perception and no model yet. */
    constructor (given: Option<UtileSuffixMemory<K>> := None, maxExplorationIterations: int := 30)
      requires given.Some? ==> given.value.Valid()
      ensures Valid()
      ensures given.Some? ==> usm == given.value
      ensures given.None? ==>
        && fresh(usm) && usm.instances == [] && usm.states == {}
        && usm.windowSize == 5 && usm.fringeDepth == 2 && usm.gamma == 0.3
        && usm.actionSpace.None? && usm.observationSpace.None?
      ensures this.maxExplorationIterations == maxExplorationIterations
      ensures iterations == 0 && perceptions == [] && model.None?
    {
      if given.Some? {
        usm := given.value;
      } else {
        usm := new UtileSuffixMemory(5, 2, 0.3, None, None);
      }
      this.maxExplorationIterations := maxExplorationIterations;
      iterations := 0;
      perceptions := [];
      model := None;
    }

    /** `should_explore`: while fewer perceptions than the exploration budget
        have been added. */
    function ShouldExplore(): (r: bool)
      reads this
      ensures r <==> iterations < maxExplorationIterations
    {
      iterations < maxExplorationIterations
    }

    /** `add_perception`: record the perception, count one iteration and
        insert one new instance, with the given action, observation and reward,
        into the memory. The instance is new, so the insertion cannot fail:
        it is assigned the node `_insert` reaches, which is registered as a
        state exactly when it is a new leaf. */
    method AddPerception(perception: K, action: K, reward: real)
      requires Valid()
      modifies this, usm
      ensures Valid()
      ensures perceptions == old(perceptions) + [perception]
      ensures iterations == old(iterations) + 1
      ensures model == old(model)
      ensures |usm.instances| == |old(usm.instances)| + 1
      ensures usm.instances[..|old(usm.instances)|] == old(usm.instances)
      ensures var inst := usm.instances[|usm.instances| - 1];
        fresh(inst) && inst.action == action && inst.observation == perception && inst.reward == reward
      ensures |usm.nodeOf| == |old(usm.nodeOf)| + 1 && usm.nodeOf[..|old(usm.nodeOf)|] == old(usm.nodeOf)
      ensures var r := usm.nodeOf[|usm.nodeOf| - 1];
        && Reached(old(usm.nodes), usm.nodes, usm.instances, old(usm.states), usm.windowSize, usm.fringeDepth, r)
        && usm.states == old(usm.states) + (if old(|usm.nodes|) <= r then {r} else {})
    {
      perceptions := perceptions + [perception];
      iterations := iterations + 1;
      var inst := new Instance(action, perception, reward);
      var r := usm.Insert(inst);
      assert usm.instances == old(usm.instances) + [inst];
      assert usm.nodeOf == old(usm.nodeOf) + [r.value];
    }

    /** The model caching of `get_decision`: the model is built (here: taken
        to be `built`) only while there is none, and reused afterwards. Solving
        it is not part of this model. */
    method DecisionModel(built: M) returns (m: M)
      modifies this`model
      ensures old(model).None? ==> m == built && model == Some(built)
      ensures old(model).Some? ==> m == old(model).value && model == old(model)
    {
      if model.None? {
        model := Some(built);
      }
      m := model.value;
    }
  }
}
