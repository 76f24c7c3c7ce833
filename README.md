# pcog in Dafny

This project models the core of pcog, an agent framework for a grid-world
simulator. Its centre is the **Utile Suffix Memory** (USM) of `pcog/usm.py`,
which has four parts:

- an append-only log of experience instances (action, observation, reward);
- a suffix trie whose levels alternate between action keys and observation keys;
- a set of registered states: leaves of the trie, with speculative "fringe"
  paths below them;
- statistics read back from the trie: reward, `pr`, `observation_fn` and
  `traverse`.

Around it the project also models:

- the POMDP transition table built from `pr` (`pcog/usm_pomdp.py`);
- the model-learning agent that feeds the memory (`pcog/model_learn_agent.py`);
- the hybrid agent's state-space builder (`pcog/hcog.py`);
- the grid agent's state indexing, neighbour test and reward
  (`pcog/agent.py`);
- the action codes (`pcog/envconf.py`);
- the `$`-separated simulator messages (`pcog/messages.py`).

Files:

- `wrappers.dfy`: `Option`, the Python exceptions as `PyError`, `Result`
  and `Outcome`.
- `usm_tree.dfy`: module `UsmTree`. It holds the instance class and the
  trie as an arena of node records. Node 0 is the root, and a parent's
  index is smaller than its child's. It also holds the well-formedness
  predicate, what it means for a trie to extend another, and the statistics
  as functions with their lemmas.
- `usm.dfy`: module `Usm`, the `UtileSuffixMemory` class. The log is a
  sequence of `Instance` objects, so `next`/`previous` are the neighbouring
  log positions. `nodeOf` records the node each instance was assigned. The
  insertion is modelled as imperative methods, proved against the trie
  predicates.
- `usm_pomdp.dfy`, `model_learn_agent.dfy`, `hcog.dfy`, `agent.dfy`,
  `envconf.dfy`, `messages.dfy`: one module per source file.

The model follows the code as written. In particular:

- `_correct_fringe` marks the new state *and* every ancestor but the root as
  fringe, whatever its doc comment says. After every `insert`, every node
  but the root is therefore fringe (`Usm.Shaped`, kept by
  `Usm.UtileSuffixMemory.Insert`).
- The root is then always a leaf, so `traverse` answers `[root]` for any
  non-empty history (`Usm.ValidTraverse`).
- A registered state is a leaf only at the moment it is registered.

The source is Python 2:

- `strip()` removes ASCII whitespace;
- `int()` accepts an optional sign, then optional whitespace, then decimal digits (so `int("- 5") == -5`);
- dividing by zero is a `ZeroDivisionError`;
- `len(None)` is a `TypeError`.

Each of these error cases is a `Result` error in the model.

## Model

| member | source | states |
|---|---|---|
| `UsmTree.Instance.constructor` | pcog/usm.py:5-11 | an instance keeps the given action, observation and reward |
| `UsmTree.Attach` | pcog/usm.py:56-58 | `add_child` of a fresh node appends exactly one node |
| `UsmTree.AttachWF` | pcog/usm.py:56-58 | attaching a fresh child under an absent key keeps the trie well formed; it only appends and keeps every existing node, child and flag |
| `UsmTree.WFChildrenInRange` | pcog/usm.py:56-58 | in a well-formed trie every child index is a node |
| `UsmTree.WFLogGrows` | pcog/usm.py:154 | appending to the log keeps the trie well formed |
| `UsmTree.ChainExtends` | pcog/usm.py:56-58 | extending the trie leaves every existing node's ancestor chain unchanged |
| `UsmTree.WalkExtends` | pcog/usm.py:162-179 | a walk through existing children reaches the same node after the trie is extended and the log appended |
| `UsmTree.FlagsOnly` | pcog/usm.py:144-147 | changing only fringe flags keeps the trie well formed and extends it |
| `UsmTree.ChainOfChild` | pcog/usm.py:56-58 | a child's chain is the child followed by its parent's chain (parent links agree with the children maps) |
| `UsmTree.ChainBounds` | pcog/usm.py:145-147 | every node on a chain lies strictly between the root and the node |
| `UsmTree.KindByDepth` | pcog/usm.py:162-179 | action nodes sit at odd depth and observation nodes at even depth, so the root's children are action nodes |
| `UsmTree.RewardSumsShift` | pcog/usm.py:96-99 | the reward walk only adds to the running totals it is given |
| `UsmTree.RewardDefined` | pcog/usm.py:77-79 | `reward` divides by zero exactly at the root; every other node has an instance on its chain |
| `UsmTree.SumRewardsWithin` | pcog/usm.py:90-94 | the sum of `n` rewards, each in [lo, hi], lies in [n·lo, n·hi] |
| `UsmTree.RewardSumsWithin` | pcog/usm.py:96-99 | the reward walk keeps its running total between count·lo and count·hi |
| `UsmTree.RewardWithin` | pcog/usm.py:77-79 | when every reward lies in [lo, hi] and that range contains 0, `reward` lies in [lo, hi] |
| `UsmTree.RewardSumsNoMatch` | pcog/usm.py:90-99 | on a chain with no action node for `a`, the walk adds only to the instance count |
| `UsmTree.RewardOfUntakenAction` | pcog/usm.py:77-99 | a non-root node whose chain never took action `a` has reward 0 for `a` |
| `UsmTree.TauInLog` | pcog/usm.py:259-266 | every instance `_tau` collects is in the log |
| `UsmTree.CountAssigned` | pcog/usm.py:281-283 | the count of instances assigned to `s2` is at most the number of instances counted |
| `UsmTree.Pr` | pcog/usm.py:269-284 | `pr` fails (ZeroDivisionError) exactly when `_tau` is empty and there is no state; otherwise it lies in [0, 1] |
| `UsmTree.HitsAtMostOne` | pcog/usm.py:281-283 | over distinct targets, an instance is assigned to at most one of them |
| `UsmTree.CountsOverStep` | pcog/usm.py:281-283 | the per-target counts add up instance by instance |
| `UsmTree.CountsOverBound` | pcog/usm.py:281-283 | over distinct targets, the per-target counts add up to at most the size of `_tau` |
| `UsmTree.OffDiagonalWithEvidence` | pcog/usm.py:280-284 | with `_tau` evidence, the off-diagonal total of `pr` is at most the targets' counts over the size of `_tau` |
| `UsmTree.OffDiagonalWithoutEvidence` | pcog/usm.py:277-279 | without `_tau` evidence, each off-diagonal target contributes 1/(number of states) |
| `UsmTree.OthersCount` | pcog/usm_pomdp.py:11 | the number of targets that differ from `s1` is at most the number of targets |
| `UsmTree.PrRowTotal` | pcog/usm.py:269-284 | over distinct targets, no more of them than states, the `pr` values off the diagonal add up to a value in [0, 1]; without evidence they add up to (number of others)/(number of states) |
| `UsmTree.RowTotalExact` | pcog/usm.py:269-284 | the `pr` values over all states, `s1` included, add up to 1 without evidence; with evidence, to the share of the `_tau` instances assigned to a state, so at most 1, and exactly 1 when every `_tau` instance is assigned to a state |
| `UsmTree.RowTotalWithoutEvidence` | pcog/usm.py:277-280 | without evidence every target gets 1/(number of states), so the targets' total is their share of the states |
| `UsmTree.RowTotalWithEvidence` | pcog/usm.py:281-283 | with evidence the targets' total is the per-target counts over `_tau`'s size |
| `UsmTree.CountsOverAssigned` | pcog/usm.py:281-283 | over distinct states, the per-state counts add up to the number of instances assigned to one of them |
| `UsmTree.AssignedAmongAll` | pcog/usm.py:281-283 | at most all instances are assigned to a state, and all exactly when each one is |
| `UsmTree.OffDiagonalNonNegative` | pcog/usm.py:269-284 | the off-diagonal total of `pr` is never negative |
| `UsmTree.SeenCount` | pcog/usm.py:293-296 | the instances that observed `o` are among those that took `a` in the state |
| `UsmTree.ObservationFn` | pcog/usm.py:288-300 | ValueError exactly on an empty log; TypeError exactly when the log is non-empty, no instance of the action is assigned to the state and the observations are unknown; ZeroDivisionError exactly when instead the known observations are an empty list; Ok in every other case, with a value in [0, 1] that is positive when there is no evidence |
| `UsmTree.SeenOverBound` | pcog/usm.py:293-300 | over distinct observations, the per-observation counts add up to at most the evidence, and to exactly the evidence when they cover every logged observation |
| `UsmTree.SeenOverZero` | pcog/usm.py:292-296 | an empty log prefix counts nothing |
| `UsmTree.SeenOverStep` | pcog/usm.py:292-296 | each instance adds one to the observation it made, if it is listed, and nothing to the others |
| `UsmTree.ObservationFnTotal` | pcog/usm.py:288-300 | `observation_fn` summed over distinct observations is in [0, 1], and exactly 1 when they include every observation in the log |
| `UsmTree.ObservationTotalUniform` | pcog/usm.py:298-299 | without evidence the sum over `n` observations is n/(number of observations) |
| `UsmTree.ObservationTotalCounts` | pcog/usm.py:300 | with evidence the sum is the summed counts over the evidence |
| `UsmTree.Leaves` | pcog/usm.py:237-238 | `_leaves` answers only leaves, at most one per instance |
| `UsmTree.TraverseStopsAtRoot` | pcog/usm.py:241-255 | when every node but the root is fringe, `traverse` answers the root for any non-empty history and nothing for an empty one |
| `Usm.Recent` | pcog/usm.py:182 | `reversed(suffix)`: the window's positions, most recent first |
| `Usm.Span` | pcog/usm.py:187 | `suffix[fringe_depth:]`: the positions after the first `fringe_depth`, oldest first |
| `Usm.WindowStart` | pcog/usm.py:204 | `instances[-window_size:]` keeps `min(window_size, n)` instances, or all of them when the size is 0 |
| `Usm.ExtendsTrans` | pcog/usm.py:162-179 | extending the trie is transitive |
| `Usm.InsertedStart` | pcog/usm.py:162-163 | following no instance leaves the trie and the start node as they are |
| `Usm.InsertedStep` | pcog/usm.py:164-178 | one more round keeps the invariant of `_insert_instances`. Every node created so far lies below the start and holds only the instance of the round that created it |
| `Usm.StepRounds` | pcog/usm.py:164-178 | nodes of earlier rounds keep their round's instance, and this round's two nodes hold the round's instance |
| `Usm.HoldsRoundKept` | pcog/usm.py:164-178 | a node keeps its depth and its instance as the trie grows |
| `Usm.FlagsKeptTrans` | pcog/usm.py:166-167 | keeping the old nodes' flags is transitive |
| `Usm.StepWalk` | pcog/usm.py:164-178 | the walk along the instances followed so far reaches the current node |
| `Usm.StepDepth` | pcog/usm.py:164-178 | each round goes two levels deeper |
| `Usm.StepNewNodes` | pcog/usm.py:165-178 | nodes created so far carry the given fringe flag and lie on the current path |
| `Usm.FringeInsertedStart` | pcog/usm.py:185-188 | before any state is visited, the fringe insertion has achieved nothing and changed nothing |
| `Usm.FringeExtended` | pcog/usm.py:199-200 | inserting the post-suffix below a matching state keeps the fringe-insertion invariant: that state now has the post-suffix below it, and every node added so far lies on the post-suffix path below some matching visited state, holding the post-suffix instance of its round |
| `Usm.FringeSkipped` | pcog/usm.py:192-198 | visiting a state that does not match keeps the fringe-insertion invariant with nothing added |
| `Usm.PostPathKept` | pcog/usm.py:199-200 | a node on a state's post-suffix path stays on it as the trie grows, and keeps its instance |
| `Usm.WindowConfined` | pcog/usm.py:203-207 | after the leaf and fringe insertions every new node is on the leaf path or below a matching state, holding its round's instance |
| `Usm.ConfinedKept` | pcog/usm.py:156-160 | marking the new leaf's path fringe keeps every new node confined to those paths |
| `Usm.StatesKept` | pcog/usm.py:162-179 | registered states stay observation nodes when the trie is extended |
| `Usm.WalksKept` | pcog/usm.py:188-200 | post-suffixes already inserted below matching states survive later insertions |
| `Usm.StepFacts` | pcog/usm.py:164-178 | one round follows the instance's action and then its observation; it creates nodes only for absent keys, and a new node has the flag given, no children, and lies on the path. The nodes it creates sit one and two levels below the current node and hold only that instance |
| `Usm.StepChain` | pcog/usm.py:168-178 | the node reached is two levels below the current node |
| `Usm.StepFlags` | pcog/usm.py:165-178 | the nodes a round creates have the flag given, and a node without children always gets new ones |
| `Usm.StepInstances` | pcog/usm.py:165-178 | the action node a round creates is one level below the current node, the observation node two, and both hold the round's instance |
| `Usm.LeafIffNew` | pcog/usm.py:156 | after `_insert`, the node the leaf path reaches is a leaf exactly when the leaf insertion created it |
| `Usm.FringeAfter` | pcog/usm.py:144-147 | after registration every node but the root is fringe, and the root is not |
| `Usm.NodeOfKept` | pcog/usm.py:159 | the nodes assigned to earlier instances stay observation nodes |
| `Usm.FringeMatchKept` | pcog/usm.py:193-198 | the fringe test of a state depends only on its first instance, which later insertions keep |
| `Usm.WindowFacts` | pcog/usm.py:203-207 | `_insert` only extends the trie. Its leaf path leads to an observation node at twice the window's length, which is a leaf exactly when it is new. The post-suffix hangs below every matching state, and every new node lies on the leaf path or on the post-suffix path below a matching state. Each new node holds only the instance of the round of its path that created it |
| `Usm.InsertFacts` | pcog/usm.py:149-160 | `insert` keeps the memory's invariant and what `_insert` reached survives the marking of the new leaf's path |
| `Usm.ShapedTreeOK` | pcog/usm.py:237-238 | in a valid memory every instance is assigned to a node, and every instance a node holds is in the log |
| `Usm.ValidTraverse` | pcog/usm.py:241-255 | in a valid memory `traverse` answers `[root]` for any non-empty history and `None` for an empty one |
| `Usm.UtileSuffixMemory.constructor` | pcog/usm.py:122-135 | a memory with only the root, an empty log and no state, and the configuration given |
| `Usm.UtileSuffixMemory.Previous` | pcog/usm.py:28-30 | `previous`: the instance just before in the log, if any |
| `Usm.UtileSuffixMemory.Next` | pcog/usm.py:28-30 | `next`: the instance just after, if any, whose predecessor is this one |
| `Usm.UtileSuffixMemory.HasActions` | pcog/usm.py:210-211 | TypeError exactly when the actions are unknown; true exactly when they are known and non-empty |
| `Usm.UtileSuffixMemory.HasObservations` | pcog/usm.py:214-215 | the same for the observations |
| `Usm.UtileSuffixMemory.ChildOrAttach` | pcog/usm.py:168-178 | the child under the key is followed when present. Otherwise a fresh node is attached, with its parent set to the current node. The trie stays well formed and nothing else changes |
| `Usm.UtileSuffixMemory.InsertStep` | pcog/usm.py:164-178 | one round reaches the node for the instance's action and then its observation, two levels down; new nodes carry the flag. Each new node, one or two levels down, holds only the round's instance |
| `Usm.UtileSuffixMemory.InsertRound` | pcog/usm.py:164-178 | one round extends what `_insert_instances` has achieved by one instance. The nodes this round creates hold only that instance |
| `Usm.UtileSuffixMemory.InsertInstances` | pcog/usm.py:162-179 | `_insert_instances` only extends the trie. It reaches the node the instances lead to, 2·n levels below the start. Only new nodes get the flag, and they lie on that path. Round k's action and observation nodes, 2k+1 and 2k+2 levels below the start, hold only the instance at the k-th position |
| `Usm.UtileSuffixMemory.MatchesHistory` | pcog/usm.py:192-198 | the backward walk from the state's first instance agrees with the window for as many steps as the depth and the log allow |
| `Usm.UtileSuffixMemory.FringeRound` | pcog/usm.py:188-200 | one iteration over the states: one more state visited; the visited matching states have the post-suffix below them, and new nodes lie only below matching visited states. Each new node holds only the post-suffix instance of its round |
| `Usm.UtileSuffixMemory.FringeVisit` | pcog/usm.py:192-200 | a visited state gets the post-suffix below it exactly when it matches: a state that does not match leaves the trie unchanged, and a matching one only adds nodes on its post-suffix path, each holding only the post-suffix instance of its round |
| `Usm.UtileSuffixMemory.FringeExtend` | pcog/usm.py:199-200 | the post-suffix is inserted below the matching state as fringe nodes, and every new node lies on that path. The node k+1 rounds down holds only the k-th post-suffix instance |
| `Usm.UtileSuffixMemory.InsertFringe` | pcog/usm.py:185-200 | every registered state that matches the window gets the post-suffix below it, and every new node is a fringe node on the post-suffix path below a matching state; nothing changes when no state matches. Each new node holds only the post-suffix instance of its round |
| `Usm.UtileSuffixMemory.CorrectFringe` | pcog/usm.py:137-147 | exactly the node and its ancestors but the root become fringe; nothing else changes |
| `Usm.UtileSuffixMemory.InsertWindow` | pcog/usm.py:203-207 | `_insert` (with `_insert_leaf`, pcog/usm.py:181-182) establishes `WindowInserted`: the leaf path is in place, matching states have the post-suffix below them, and new nodes lie only on those paths. Each new node holds only the instance of its round on its path |
| `Usm.UtileSuffixMemory.Insert` | pcog/usm.py:149-160 | ValueError and no change for an instance already in the log. Otherwise the instance is appended and assigned the node reached, and that node is registered exactly when it is a new leaf. Every new node lies on the leaf path or on the post-suffix path below a matching state, and holds only the instance of the round of that path that created it. The invariant is kept |
| `Usm.UtileSuffixMemory.Tau` | pcog/usm.py:259-266 | the loop computes `_tau`, whose instances are in the log |
| `Usm.UtileSuffixMemory.Pr` | pcog/usm.py:269-284 | the loop computes `pr` |
| `Usm.UtileSuffixMemory.ObservationFn` | pcog/usm.py:288-300 | the loop computes `observation_fn` |
| `Usm.UtileSuffixMemory.Traverse` | pcog/usm.py:241-255 | the loop computes `traverse` from the root |
| `UsmPomdp.Row` | pcog/usm_pomdp.py:10-12 | entry k of a row is `pr(s1, t_k, a)`, or 0 when `t_k` is `s1` |
| `UsmPomdp.RowSum` | pcog/usm_pomdp.py:10-12 | a row adds up to the off-diagonal total of `pr` |
| `UsmPomdp.RowBounds` | pcog/usm_pomdp.py:10-12 | over distinct states, every entry and each row's total lie in [0, 1]; without evidence every off-diagonal entry is 1/(number of states) |
| `UsmPomdp.Enumerate` | pcog/usm_pomdp.py:8 | iterating over the set of states visits each exactly once |
| `UsmPomdp.TransitionFunction` | pcog/usm_pomdp.py:4-13 | TypeError or ValueError without a non-empty action space. Otherwise a fresh S×A×S table (states, actions, states), with `pr` off the diagonal and 0 on it |
| `UsmPomdp.FillRow` | pcog/usm_pomdp.py:10-12 | the innermost loop fills one row and leaves the rest of the table alone |
| `UsmPomdp.BeliefState` | pcog/usm_pomdp.py:47-48 | 1.0 whatever the memory holds |
| `ModelLearnAgent.Agent.constructor` | pcog/model_learn_agent.py:11-22 | the given memory or, by default, a fresh one (window 5, depth 2, gamma 0.3); an exploration budget of 30 unless one is given; no iteration, perception or model yet |
| `ModelLearnAgent.Agent.ShouldExplore` | pcog/model_learn_agent.py:25-26 | true exactly while fewer perceptions than the budget have been added |
| `ModelLearnAgent.Agent.AddPerception` | pcog/model_learn_agent.py:33-42 | appends the perception and counts one iteration. The memory's log gains exactly one new instance with the given action, observation and reward. That instance is assigned the node `_insert` reaches, which is registered exactly when it is a new leaf; the trie satisfies `Reached` and the invariant is kept |
| `ModelLearnAgent.Agent.DecisionModel` | pcog/model_learn_agent.py:56-58 | the model is built only when there is none yet; later calls reuse it |
| `Hcog.Attrib.constructor` | pcog/hcog.py:5-8 | an attribute keeps its identifier and allowed values |
| `Hcog.ExtendOne` | pcog/hcog.py:88-91 | one copy of the state per value, each with that value appended, in value order |
| `Hcog.ExtendAt` | pcog/hcog.py:86-92 | entry i·V+j (V values) of an extension is state i followed by value j (state-major order) |
| `Hcog.ExtendLength` | pcog/hcog.py:86-93 | an extension has as many entries as states times values |
| `Hcog.ProductSize` | pcog/hcog.py:80-94 | `_derive_states` yields the product of the allowed-value counts |
| `Hcog.ProductEmpty` | pcog/hcog.py:88-93 | an attribute without allowed values empties the state space |
| `Hcog.ExtendMember` | pcog/hcog.py:89-91 | every new state is an old state followed by one allowed value |
| `Hcog.ProductMembers` | pcog/hcog.py:80-94 | every derived state is a starting state followed by one allowed value of each later attribute, in order |
| `Hcog.ProductStep` | pcog/hcog.py:82-93 | one more attribute extends the states derived so far |
| `Hcog.AllowedOf` | pcog/hcog.py:83 | the allowed values of each attribute, in order |
| `Hcog.BasicHybrid.constructor` | pcog/hcog.py:67-79 | no perceptions yet; the states are the derived product, which is also written back into the first attribute |
| `Hcog.BasicHybrid.DeriveStates` | pcog/hcog.py:80-94 | the first attribute's list becomes, in place, the product over the later attributes, and is returned |
| `Hcog.BasicHybrid.ExtendStates` | pcog/hcog.py:84-93 | one round appends the extensions of the first `iters` states and then deletes those states |
| `Hcog.BasicHybrid.AddPerception` | pcog/hcog.py:96-98 | AssertionError unless the perception is an observation; otherwise it is appended |
| `Hcog.BasicHybridBuilder.constructor` | pcog/hcog.py:18-27 | every field starts unset |
| `Hcog.BasicHybridBuilder.Fields` | pcog/hcog.py:30 | the nine fields, each once, with perceptions and attributes among them; Python lists them in dictionary order, which `finalize` does not depend on |
| `Hcog.BasicHybridBuilder.Finalize` | pcog/hcog.py:29-42 | ValueError exactly when some field is unset, so always while perceptions and attributes are unset; otherwise the agent's arguments in order |
| `Hcog.BasicHybridBuilder.SetUtil` | pcog/hcog.py:44-45 | sets the utility |
| `Hcog.BasicHybridBuilder.SetObservations` | pcog/hcog.py:47-48 | sets the observations |
| `Hcog.BasicHybridBuilder.SetGoals` | pcog/hcog.py:50-51 | sets the goals |
| `Hcog.BasicHybridBuilder.SetActions` | pcog/hcog.py:53-54 | sets the actions |
| `Hcog.BasicHybridBuilder.SetTransitions` | pcog/hcog.py:56-57 | sets the transitions |
| `Hcog.BasicHybridBuilder.SetDesire` | pcog/hcog.py:59-60 | sets the desire function |
| `Hcog.BasicHybridBuilder.SetRefocus` | pcog/hcog.py:62-63 | sets the refocus function |
| `Hcog.BuilderNeverFinalizes` | pcog/hcog.py:17-63 | whatever setters are called, `finalize` raises ValueError |
| `Agent.GridCoordinates` | pcog/agent.py:35-36 | 25 cells of the grid, the k-th at position k |
| `Agent.Coordinates` | pcog/agent.py:54-55 | the 25 cells followed by `None`; slot k has index k |
| `Agent.CellIdxRoundTrip` | pcog/agent.py:39-48 | a cell's index (25 for `None`) is below `L` and decodes back to the cell |
| `Agent.IdxInTableAndDecodes` | pcog/agent.py:38-51 | `_idx` of an in-grid humanoid lies below `L³·3` and decodes back to the state |
| `Agent.MixedRadix` | pcog/agent.py:51 | the mixed-radix digits can be read back |
| `Agent.IdxInjective` | pcog/agent.py:38-51 | no two states share an index |
| `Agent.AllStates` | pcog/agent.py:53-60 | `_get_all_states` has 26³·3 states |
| `Agent.AllStatesIndexed` | pcog/agent.py:53-60 | the k-th state has index k, except those with an unknown humanoid, where `_idx` raises TypeError |
| `Agent.Decompose` | pcog/agent.py:51 | every table index splits into its digits |
| `Agent.IsNeighbourProperties` | pcog/agent.py:62-68 | false with an unknown position, symmetric and reflexive; any two cells in the same row, or in the same column, are neighbours however far apart |
| `Agent.IsNeighbourFarCells` | pcog/agent.py:68 | two cells four columns apart in the same row are neighbours, although the adjacency test rejects them |
| `Agent.IsAdjacentProperties` | pcog/agent.py:62-68 | the `and` version: symmetric and reflexive, implies `_is_neighbour`, and holds exactly at Chebyshev distance at most 1 |
| `Agent.HybridStateSpace` | pcog/agent.py:241-247 | 48 tuples |
| `Agent.HybridStateSpaceExact` | pcog/agent.py:241-247 | exactly the combinations of the two flags, a health level and a danger level, in loop order |
| `Agent.HybridStateSpaceDistinct` | pcog/agent.py:241-247 | the 48 tuples are pairwise distinct |
| `Agent.OiDecodes` | pcog/agent.py:277-278 | both components can be read back from `oi` |
| `Agent.OiInjective` | pcog/agent.py:277-278 | `oi` is injective for health levels 0..2 |
| `Agent.FindReward` | pcog/agent.py:346-352 | negative exactly when the danger rises, 5 exactly when it stays, more than 5 exactly when it falls |
| `Agent.FindRewardIgnoresAction` | pcog/agent.py:346-352 | the action plays no part |
| `EnvConf.Range` | pcog/envconf.py:13 | `set(range(n))` holds exactly 0..n-1 |
| `EnvConf.QcogAction` | pcog/envconf.py:16-23 | defined exactly on the three actions, with a code among 0, 8 and 9; ValueError otherwise |
| `EnvConf.QcogActionInjective` | pcog/envconf.py:16-23 | distinct actions get distinct codes |
| `EnvConf.ActionName` | pcog/envconf.py:26-33 | defined exactly on the three actions, with one of the three names; ValueError otherwise |
| `EnvConf.ActionNameInjective` | pcog/envconf.py:26-33 | distinct actions get distinct names |
| `EnvConf.ValidActionCharacterised` | pcog/envconf.py:37-38 | valid exactly for 0, 1 and 2, which is exactly when the action can be named and sent |
| `EnvConf.ValidStaminaStateCharacterised` | pcog/envconf.py:72-74 | valid exactly for 0, 1 and 2 |
| `Messages.MessageTypeCodes` | pcog/messages.py:4-32 | the 22 message type codes are pairwise distinct |
| `Messages.Split` | pcog/messages.py:61 | `split("$")` always yields at least one piece |
| `Messages.SplitShape` | pcog/messages.py:61 | one more piece than there are `$`, and no piece holds a `$` |
| `Messages.JoinSplit` | pcog/messages.py:61 | joining the pieces with `$` gives back the text |
| `Messages.SplitJoin` | pcog/messages.py:61 | splitting pieces joined with `$` gives them back when none holds a `$` |
| `Messages.SplitPiece` | pcog/messages.py:61 | text without `$` is a single piece |
| `Messages.StripLeftSpec` | pcog/messages.py:62 | the left strip drops exactly the leading whitespace |
| `Messages.StripRightSpec` | pcog/messages.py:62 | the right strip drops exactly the trailing whitespace |
| `Messages.StripSpec` | pcog/messages.py:62 | `strip()` keeps a contiguous middle part, drops only whitespace around it, and leaves none at either end |
| `Messages.StripIdempotent` | pcog/messages.py:62 | stripping twice is stripping once |
| `Messages.NatDigits` | pcog/messages.py:43 | a decimal rendering is a non-empty run of digits |
| `Messages.DigitsRoundTrip` | pcog/messages.py:43 | reading back the digits of `n` gives `n` |
| `Messages.ParseIntRoundTrip` | pcog/messages.py:43 | `int(str(n)) == n` |
| `Messages.ParseIntAccepts` | pcog/messages.py:43 | `int` accepts exactly a run of digits, or a sign followed by optional whitespace and a run of digits |
| `Messages.ParseIntSignSpace` | pcog/messages.py:43 | whitespace between the sign and the digits is accepted: `int("- 5") == -5` |
| `Messages.ParseMessage` | pcog/messages.py:52-63 | one stripped element per `$`-separated piece, in order |
| `Messages.NewMessage` | pcog/messages.py:36-43 | ValueError exactly when the first stripped piece is not an integer; otherwise that integer is the id and the pieces are kept |
| `Messages.GetType` | pcog/messages.py:48-49 | always NotImplementedError |
| `Messages.MessageIdRoundTrip` | pcog/messages.py:42-43 | a message that starts with a rendered integer gets that integer as its id |
| `Messages.NoSeparatorInDigits` | pcog/messages.py:43 | a rendered integer holds no `$` and no whitespace |

## Left out

- Sockets, logging and the server loop (`pcog/__main__.py`) are I/O. Perception (`pcog/perception.py`) is float- and JSON-based, and humanoid parsing (`pcog/humanoid.py`) delegates to `json.loads`. Drawing (`pcog/usm_draw.py`, `UtileSuffixMemory.display`) is rendering only. None of these is part of this model.
- `reward_function` and `observation_function` of `pcog/usm_pomdp.py` cannot run: the first calls `get_get_states`, and the second enumerates an unbound method. They are not part of this model.
- `build_pomdp_model`, `solve` and `plan_off_usm` of `pcog/usm_pomdp.py` call the external POMDP library, which is not part of this model.
- The float-heavy and library-heavy parts of `pcog/agent.py` are not modelled: the transition, belief, reward and planning methods, `danger`, `find_transition` and the simulations.
- Hcog.BasicHybrid.constructor: keeps only the attributes, the observations, the perceptions and the derived states. The goals, actions, transitions, desire and refocus arguments are dropped, since no modelled operation reads them. The calls into the utility object (`get_satif`, `get_pref`) are not modelled either.
- Floating point is modelled as exact reals, so rounding is not modelled.
- Usm.UtileSuffixMemory.constructor: requires `window_size == 0 || fringe_depth <= window_size`. With a larger fringe depth, `_insert_fringe` indexes past the pre-suffix (`pcog/usm.py:196`). It can then raise an IndexError partway through an insertion, but only for a state whose walk matches the whole shorter pre-suffix and reaches further back. That configuration is not modelled.
- Usm.UtileSuffixMemory.constructor: the window size and the fringe depth are natural numbers. Python also accepts negative values, and then `instances[-ws:]` drops the first instances of the log instead of keeping the last ones. Negative sizes are not modelled.
- UsmTree.RowTotalExact: `pr`'s docstring (`pcog/usm.py:271-275`) asks for the row to add up to 1. The model proves this holds exactly when every `_tau` instance is assigned to a registered state. It does not prove, or refute, that every reachable memory has this property: an instance whose leaf path ends on an existing fringe node is assigned a node that is never registered.
- Hcog.BasicHybrid.DeriveStates: the attribute list is passed as its first attribute and the rest. An empty attribute list, where `self._attributes[0]` (`pcog/hcog.py:81`) raises an IndexError, is not modelled.
- Hcog.BasicHybrid.DeriveStates: requires that the first attribute does not appear again later in the list. The model gives each attribute its own value list, so it also does not capture list aliasing. A later attribute, distinct or not, whose allowed-values list is the same list object as the first attribute's (`pcog/hcog.py:7-11`, 81-84) makes the inner loop (`pcog/hcog.py:84-91`) go over the list it is appending to, and `_derive_states` then does not terminate. Neither case is modelled.
- Hcog.BasicHybrid.constructor: carries the same two restrictions as `DeriveStates`, which it calls.
- Usm.UtileSuffixMemory.InsertFringe: Python visits `_states` in hash order. The model visits them in an arbitrary order and proves the result for every order.
- UsmPomdp.Enumerate: the same for the enumeration of `get_states()`. The three enumerations in `transition_function` are taken to be one order, as CPython gives for an unchanged set.
- Usm.UtileSuffixMemory.Insert: the successor and predecessor links (`add_front`) are the neighbouring log positions (`Previous`, `Next`), not separate fields.
- Usm.UtileSuffixMemory.Insert: an instance object shared between two memories, or re-linked by hand, is not modelled. Each memory owns its log.
- ModelLearnAgent.Agent.DecisionModel: the model builder is a parameter (`built`), and `solve` is not modelled.
- ModelLearnAgent.Agent.AddPerception: the `logger.info` call (`pcog/model_learn_agent.py:43-53`) is output only and is not modelled.
- Usm.UtileSuffixMemory.Traverse: proved against `TraverseFrom` for any well-formed trie. On a valid memory the loop never gets past the root (`ValidTraverse`).
- Usm.UtileSuffixMemory.ObservationFn: the instance check `isinstance(that, Instance)` of `eql_i` and the key types are not modelled; one key type serves for actions and observations.

## Findings

| source | as written | input that shows it | evidently intended | confidence | as-written member | corrected member |
|---|---|---|---|---|---|---|
| pcog/agent.py:68 | `_is_neighbour` joins the row and column tests with `or` | cells (0, 0) and (0, 4): same row, four columns apart, reported as neighbours | `and`: the eight surrounding cells and the cell itself | medium; not executed | `Agent.IsNeighbourFarCells` | `Agent.IsAdjacentProperties` |
