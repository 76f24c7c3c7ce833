/** The suffix trie of the Utile Suffix Memory (pcog/usm.py), as an arena of
    node records. Node 0 is the root; every other node was appended after its
    parent, so a parent index is always smaller than its child's. Instances are
    referred to by their position in the memory's log. */
module UsmTree {
  import opened Wrappers

  /** One step of experience: the action taken, what was observed after it
      and the reward received. Its successor and predecessor are the log
      entries after and before it; its assigned node is kept by the memory. */
  class Instance<K(==)> {
    const action: K
    const observation: K
    const reward: real

    constructor (action: K, observation: K, reward: real)
      ensures this.action == action && this.observation == observation && this.reward == reward
    {
      this.action := action;
      this.observation := observation;
      this.reward := reward;
    }

    /** `eql_i`: the same action and the same observation; rewards are not compared. */
    predicate EqlI(that: Instance<K>)
    {
      observation == that.observation && action == that.action
    }
  }

  datatype Kind<K> = Root | ActionNode(action: K) | ObservationNode(observation: K)

  /** A trie node: its kind and label, its children by key, its parent, the
      log positions of the instances it holds and its fringe flag. */
  datatype Node<K> = Node(kind: Kind<K>, children: map<K, nat>, parent: nat, instances: seq<nat>, isFringe: bool)

  /** The key under which a node hangs from its parent. */
  function Key<K>(kind: Kind<K>): K
    requires !kind.Root?
  {
    if kind.ActionNode? then kind.action else kind.observation
  }

  /** Levels alternate: action nodes hang from the root and from observation
      nodes, observation nodes from action nodes. */
  predicate FitsUnder<K>(parent: Kind<K>, child: Kind<K>)
  {
    if parent.ActionNode? then child.ObservationNode? else child.ActionNode?
  }

  /** A node's label is the matching field of the instance that created it. */
  predicate Labelled<K(==)>(kind: Kind<K>, inst: Instance<K>)
  {
    match kind
    case Root => true
    case ActionNode(a) => inst.action == a
    case ObservationNode(o) => inst.observation == o
  }

  ghost predicate NodeOK<K>(nodes: seq<Node<K>>, log: seq<Instance<K>>, i: nat)
    requires 0 < i < |nodes|
  {
    var n := nodes[i];
    && !n.kind.Root?
    && n.parent < i
    && FitsUnder(nodes[n.parent].kind, n.kind)
    && Key(n.kind) in nodes[n.parent].children
    && nodes[n.parent].children[Key(n.kind)] == i
    && |n.instances| == 1
    && n.instances[0] < |log|
    && Labelled(n.kind, log[n.instances[0]])
  }

  ghost predicate ChildOK<K>(nodes: seq<Node<K>>, p: nat, k: K)
    requires p < |nodes| && k in nodes[p].children
  {
    var c := nodes[p].children[k];
    p < c < |nodes| && nodes[c].parent == p && !nodes[c].kind.Root? && Key(nodes[c].kind) == k
  }

  /** The shape of the trie: the root first, holding no instance; every other
      node after its parent, registered in the parent's children under its own
      key, and holding one instance of the log whose action or observation
      is that key; children maps and parent links agree. Which instance a new
      node holds is stated by the insertion (`Usm.HoldsRound`). */
  ghost predicate WF<K>(nodes: seq<Node<K>>, log: seq<Instance<K>>)
  {
    && |nodes| >= 1
    && nodes[0].kind.Root?
    && nodes[0].instances == []
    && (forall i :: 0 < i < |nodes| ==> NodeOK(nodes, log, i))
    && (forall p, k {:trigger ChildOK(nodes, p, k)} :: 0 <= p < |nodes| && k in nodes[p].children ==> ChildOK(nodes, p, k))
  }

  ghost predicate ChildrenInRange<K>(nodes: seq<Node<K>>)
  {
    forall p, k :: 0 <= p < |nodes| && k in nodes[p].children ==> nodes[p].children[k] < |nodes|
  }

  /** `child`: the node under `key`, if any. */
  function Child<K>(nodes: seq<Node<K>>, m: nat, key: K): Option<nat>
  {
    if m < |nodes| && key in nodes[m].children then Some(nodes[m].children[key]) else None
  }

  /** Follows the action and then the observation of one instance. */
  function Step<K(==)>(nodes: seq<Node<K>>, m: nat, inst: Instance<K>): Option<nat>
  {
    match Child(nodes, m, inst.action)
    case None => None
    case Some(a) => Child(nodes, a, inst.observation)
  }

  /** The node reached from `start` by following the instances at log
      positions `ps`, in order, through existing children only. */
  function Walk<K(==)>(nodes: seq<Node<K>>, log: seq<Instance<K>>, start: nat, ps: seq<nat>): Option<nat>
    decreases |ps|
  {
    if ps == [] then Some(start)
    else match Walk(nodes, log, start, ps[..|ps| - 1])
      case None => None
      case Some(m) => if ps[|ps| - 1] < |log| then Step(nodes, m, log[ps[|ps| - 1]]) else None
  }

  /** A node and its ancestors, nearest first, without the root. */
  function Chain<K>(nodes: seq<Node<K>>, i: nat): seq<nat>
    decreases i
  {
    if i == 0 || i >= |nodes| || nodes[i].parent >= i then [] else [i] + Chain(nodes, nodes[i].parent)
  }

  function Depth<K>(nodes: seq<Node<K>>, i: nat): nat
  {
    |Chain(nodes, i)|
  }

  /** Everything but the fringe flag is kept, and a child key absent before
      points to a node appended since. */
  ghost predicate Kept<K>(before: Node<K>, after: Node<K>, bound: nat)
  {
    && after.kind == before.kind
    && after.parent == before.parent
    && after.instances == before.instances
    && (forall k {:trigger k in before.children} :: k in before.children ==> k in after.children && after.children[k] == before.children[k])
    && (forall k :: k in after.children && k !in before.children ==> after.children[k] >= bound)
  }

  /** `after` only appends nodes and adds children: nothing is removed or replaced. */
  ghost predicate Extends<K>(before: seq<Node<K>>, after: seq<Node<K>>)
  {
    |before| <= |after| && forall i {:trigger Kept(before[i], after[i], |before|)} :: 0 <= i < |before| ==> Kept(before[i], after[i], |before|)
  }

  /** The fringe flags of the nodes that were already there are unchanged. */
  ghost predicate FlagsKept<K>(before: seq<Node<K>>, after: seq<Node<K>>)
    requires |before| <= |after|
  {
    forall i :: 0 <= i < |before| ==> after[i].isFringe == before[i].isFringe
  }

  /** `add_child` of a fresh node created from the instance at `p`. */
  function Attach<K>(nodes: seq<Node<K>>, m: nat, kind: Kind<K>, p: nat, fringe: bool): (r: seq<Node<K>>)
    requires m < |nodes| && !kind.Root?
    ensures |r| == |nodes| + 1
  {
    nodes[m := nodes[m].(children := nodes[m].children[Key(kind) := |nodes|])]
      + [Node(kind, map[], m, [p], fringe)]
  }

  /** `is_leaf`: not fringe, and no child or only fringe children. */
  predicate IsLeaf<K>(nodes: seq<Node<K>>, i: nat)
    requires i < |nodes| && ChildrenInRange(nodes)
  {
    !nodes[i].isFringe
    && (nodes[i].children == map[]
        || forall k :: k in nodes[i].children ==> nodes[nodes[i].children[k]].isFringe)
  }

  ghost predicate AllFringe<K>(nodes: seq<Node<K>>)
  {
    forall i :: 0 < i < |nodes| ==> nodes[i].isFringe
  }

  // ---------------------------------------------------------------------
  // Structural lemmas

  lemma WFChildrenInRange<K>(nodes: seq<Node<K>>, log: seq<Instance<K>>)
    requires WF(nodes, log)
    ensures ChildrenInRange(nodes)
  {
    forall p, k | 0 <= p < |nodes| && k in nodes[p].children
      ensures nodes[p].children[k] < |nodes|
    {
      assert ChildOK(nodes, p, k);
    }
  }

  /** Appending to the log keeps the trie well formed. */
  lemma WFLogGrows<K>(nodes: seq<Node<K>>, log: seq<Instance<K>>, log': seq<Instance<K>>)
    requires WF(nodes, log) && |log| <= |log'| && log'[..|log|] == log
    ensures WF(nodes, log')
  {
    forall i | 0 < i < |nodes| ensures NodeOK(nodes, log', i) {
      assert NodeOK(nodes, log, i);
      assert log'[nodes[i].instances[0]] == log[nodes[i].instances[0]];
    }
  }

  /** Attaching a fresh child under a key that is absent keeps the trie well
      formed and only extends it. */
  lemma AttachWF<K>(nodes: seq<Node<K>>, log: seq<Instance<K>>, m: nat, kind: Kind<K>, p: nat, fringe: bool)
    requires WF(nodes, log) && m < |nodes| && !kind.Root?
    requires FitsUnder(nodes[m].kind, kind) && Key(kind) !in nodes[m].children
    requires p < |log| && Labelled(kind, log[p])
    ensures WF(Attach(nodes, m, kind, p, fringe), log)
    ensures Extends(nodes, Attach(nodes, m, kind, p, fringe))
    ensures FlagsKept(nodes, Attach(nodes, m, kind, p, fringe))
  {
    var after := Attach(nodes, m, kind, p, fringe);
    var n := |nodes|;
    forall i | 0 < i < |after| ensures NodeOK(after, log, i) {
      if i < n {
        assert NodeOK(nodes, log, i);
        var q := nodes[i].parent;
        if q == m {
          assert Key(nodes[i].kind) in nodes[m].children;
          assert Key(nodes[i].kind) != Key(kind);
        }
      }
    }
    forall q, k | 0 <= q < |after| && k in after[q].children ensures ChildOK(after, q, k) {
      if q != m || k != Key(kind) {
        assert q < n && k in nodes[q].children;
        assert ChildOK(nodes, q, k);
      }
    }
  }

  /** Chains of nodes that were already there survive an extension. */
  lemma {:induction false} ChainExtends<K>(before: seq<Node<K>>, after: seq<Node<K>>, i: nat)
    requires Extends(before, after) && i < |before|
    ensures Chain(after, i) == Chain(before, i)
    decreases i
  {
    assert Kept(before[i], after[i], |before|);
    if i != 0 && before[i].parent < i {
      ChainExtends(before, after, before[i].parent);
    }
  }

  /** A walk through existing children survives an extension of the trie and
      of the log. */
  lemma {:induction false} WalkExtends<K>(before: seq<Node<K>>, after: seq<Node<K>>,
                                              log: seq<Instance<K>>, log': seq<Instance<K>>,
                                              start: nat, ps: seq<nat>)
    requires Extends(before, after) && |log| <= |log'| && log'[..|log|] == log
    requires Walk(before, log, start, ps).Some?
    ensures Walk(after, log', start, ps) == Walk(before, log, start, ps)
    decreases |ps|
  {
    if ps != [] {
      var init := ps[..|ps| - 1];
      WalkExtends(before, after, log, log', start, init);
      var m := Walk(before, log, start, init).value;
      var inst := log[ps[|ps| - 1]];
      assert log'[ps[|ps| - 1]] == inst;
      assert m < |before| && Kept(before[m], after[m], |before|);
      var a := Child(before, m, inst.action).value;
      assert a < |before| && Kept(before[a], after[a], |before|);
    }
  }

  /** Flag changes alone keep the trie well formed and leave chains alone. */
  lemma FlagsOnly<K>(before: seq<Node<K>>, after: seq<Node<K>>, log: seq<Instance<K>>)
    requires |before| == |after|
    requires forall i :: 0 <= i < |before| ==> after[i] == before[i].(isFringe := after[i].isFringe)
    ensures Extends(before, after)
    ensures WF(before, log) ==> WF(after, log)
  {
    if WF(before, log) {
      forall i | 0 < i < |after| ensures NodeOK(after, log, i) {
        assert NodeOK(before, log, i);
      }
      forall q, k | 0 <= q < |after| && k in after[q].children ensures ChildOK(after, q, k) {
        assert ChildOK(before, q, k);
      }
    }
  }

  /** A child is one level deeper than its parent. */
  lemma ChainOfChild<K>(nodes: seq<Node<K>>, log: seq<Instance<K>>, m: nat, key: K)
    requires WF(nodes, log) && m < |nodes| && key in nodes[m].children
    ensures Chain(nodes, nodes[m].children[key]) == [nodes[m].children[key]] + Chain(nodes, m)
  {
    assert ChildOK(nodes, m, key);
  }

  /** Every node of a chain lies strictly between the root and the node. */
  lemma {:induction false} ChainBounds<K>(nodes: seq<Node<K>>, i: nat)
    ensures forall j :: j in Chain(nodes, i) ==> 0 < j <= i
    decreases i
  {
    if i != 0 && i < |nodes| && nodes[i].parent < i {
      ChainBounds(nodes, nodes[i].parent);
    }
  }

  /** Action and observation levels alternate with depth: action nodes sit at
      odd depth, observation nodes at even depth, the root at depth 0. */
  lemma {:induction false} KindByDepth<K>(nodes: seq<Node<K>>, log: seq<Instance<K>>, i: nat)
    requires WF(nodes, log) && 0 < i < |nodes|
    ensures nodes[i].kind.ActionNode? <==> Depth(nodes, i) % 2 == 1
    ensures nodes[i].kind.ObservationNode? <==> Depth(nodes, i) % 2 == 0
    decreases i
  {
    assert NodeOK(nodes, log, i);
    var q := nodes[i].parent;
    assert Chain(nodes, i) == [i] + Chain(nodes, q);
    if q != 0 {
      KindByDepth(nodes, log, q);
    }
  }

  // ---------------------------------------------------------------------
  // Rewards

  /** The sum of the rewards of the instances at positions `cs`. */
  function SumRewards<K>(log: seq<Instance<K>>, cs: seq<nat>): real
    decreases |cs|
  {
    if cs == [] then 0.0
    else SumRewards(log, cs[..|cs| - 1]) + (if cs[|cs| - 1] < |log| then log[cs[|cs| - 1]].reward else 0.0)
  }

  /** `_reward`: walks from node `i` up to the root. Every action node adds the
      rewards of its instances to `total` when its action is `a`, and the number
      of its instances to `count` whatever its action; observation nodes add
      nothing. */
  function RewardSums<K(==)>(nodes: seq<Node<K>>, log: seq<Instance<K>>, i: nat, total: real, count: nat, a: K): (real, nat)
    decreases i
  {
    if i == 0 || i >= |nodes| || nodes[i].parent >= i then (total, count)
    else
      var n := nodes[i];
      if n.kind.ActionNode? then
        var own := if n.kind.action == a then SumRewards(log, n.instances) else 0.0;
        RewardSums(nodes, log, n.parent, total + own, count + |n.instances|, a)
      else
        RewardSums(nodes, log, n.parent, total, count, a)
  }

  /** `reward(a)`: the rewards gathered by `_reward` divided by the instance
      count, a ZeroDivisionError when that count is 0. */
  function Reward<K(==)>(nodes: seq<Node<K>>, log: seq<Instance<K>>, i: nat, a: K): Result<real>
  {
    var (total, count) := RewardSums(nodes, log, i, 0.0, 0, a);
    if count == 0 then Err(ZeroDivisionError) else Ok(total / count as real)
  }

  /** The walk only ever adds to what it was given. */
  lemma {:induction false} RewardSumsShift<K>(nodes: seq<Node<K>>, log: seq<Instance<K>>, i: nat, total: real, count: nat, a: K)
    ensures RewardSums(nodes, log, i, total, count, a).0 == total + RewardSums(nodes, log, i, 0.0, 0, a).0
    ensures RewardSums(nodes, log, i, total, count, a).1 == count + RewardSums(nodes, log, i, 0.0, 0, a).1
    decreases i
  {
    if !(i == 0 || i >= |nodes| || nodes[i].parent >= i) {
      var n := nodes[i];
      if n.kind.ActionNode? {
        var own := if n.kind.action == a then SumRewards(log, n.instances) else 0.0;
        RewardSumsShift(nodes, log, n.parent, total + own, count + |n.instances|, a);
        RewardSumsShift(nodes, log, n.parent, own, |n.instances|, a);
      } else {
        RewardSumsShift(nodes, log, n.parent, total, count, a);
      }
    }
  }

  /** `reward` is defined exactly on the nodes other than the root: every
      other node is an action node or hangs from one, and every action node
      holds one instance. */
  lemma RewardDefined<K>(nodes: seq<Node<K>>, log: seq<Instance<K>>, i: nat, a: K)
    requires WF(nodes, log) && i < |nodes|
    ensures Reward(nodes, log, i, a).Ok? <==> i != 0
    ensures Reward(nodes, log, i, a).Err? ==> Reward(nodes, log, i, a).error == ZeroDivisionError
  {
    if i != 0 {
      assert NodeOK(nodes, log, i);
      var n := nodes[i];
      if n.kind.ActionNode? {
        var own := if n.kind.action == a then SumRewards(log, n.instances) else 0.0;
        assert RewardSums(nodes, log, i, 0.0, 0, a) == RewardSums(nodes, log, n.parent, 0.0 + own, 0 + 1, a);
        RewardSumsShift(nodes, log, n.parent, 0.0 + own, 0 + 1, a);
      } else {
        var q := n.parent;
        assert q != 0 && NodeOK(nodes, log, q);
        assert nodes[q].kind.ActionNode?;
        assert RewardSums(nodes, log, i, 0.0, 0, a) == RewardSums(nodes, log, q, 0.0, 0, a);
        var own := if nodes[q].kind.action == a then SumRewards(log, nodes[q].instances) else 0.0;
        assert RewardSums(nodes, log, q, 0.0, 0, a) == RewardSums(nodes, log, nodes[q].parent, 0.0 + own, 0 + 1, a);
        RewardSumsShift(nodes, log, nodes[q].parent, 0.0 + own, 0 + 1, a);
      }
    }
  }

  ghost predicate RewardsWithin<K>(log: seq<Instance<K>>, lo: real, hi: real)
  {
    forall c :: 0 <= c < |log| ==> lo <= log[c].reward <= hi
  }

  lemma {:induction false} SumRewardsWithin<K>(log: seq<Instance<K>>, cs: seq<nat>, lo: real, hi: real)
    requires RewardsWithin(log, lo, hi) && lo <= 0.0 <= hi
    ensures Scaled(SumRewards(log, cs), |cs|, lo, hi)
    decreases |cs|
  {
    if cs != [] {
      var c := cs[|cs| - 1];
      SumRewardsWithin(log, cs[..|cs| - 1], lo, hi);
      var u := if c < |log| then log[c].reward else 0.0;
      assert Scaled(u, 1, lo, hi);
      ScaledSum(|cs| - 1, 1, SumRewards(log, cs[..|cs| - 1]), u, lo, hi);
    }
  }

  /** `t` is between `c` times `lo` and `c` times `hi`. */
  ghost predicate Scaled(t: real, c: nat, lo: real, hi: real)
  {
    c as real * lo <= t <= c as real * hi
  }

  lemma {:induction false} RewardSumsWithin<K>(nodes: seq<Node<K>>, log: seq<Instance<K>>, i: nat, total: real, count: nat, a: K, lo: real, hi: real)
    requires RewardsWithin(log, lo, hi) && lo <= 0.0 <= hi
    requires Scaled(total, count, lo, hi)
    ensures Scaled(RewardSums(nodes, log, i, total, count, a).0, RewardSums(nodes, log, i, total, count, a).1, lo, hi)
    decreases i
  {
    if !(i == 0 || i >= |nodes| || nodes[i].parent >= i) {
      var n := nodes[i];
      if n.kind.ActionNode? {
        var own := if n.kind.action == a then SumRewards(log, n.instances) else 0.0;
        var m := |n.instances|;
        if n.kind.action == a {
          SumRewardsWithin(log, n.instances, lo, hi);
        }
        ScaledSum(count, m, total, own, lo, hi);
        RewardSumsWithin(nodes, log, n.parent, total + own, count + m, a, lo, hi);
        assert RewardSums(nodes, log, i, total, count, a) == RewardSums(nodes, log, n.parent, total + own, count + m, a);
      } else {
        RewardSumsWithin(nodes, log, n.parent, total, count, a, lo, hi);
        assert RewardSums(nodes, log, i, total, count, a) == RewardSums(nodes, log, n.parent, total, count, a);
      }
    }
  }

  lemma ScaledSum(c: nat, m: nat, t: real, u: real, lo: real, hi: real)
    requires Scaled(t, c, lo, hi)
    requires lo <= 0.0 <= hi
    requires Scaled(u, m, lo, hi) || u == 0.0
    ensures Scaled(t + u, c + m, lo, hi)
  {
    assert (c + m) as real * lo == c as real * lo + m as real * lo;
    assert (c + m) as real * hi == c as real * hi + m as real * hi;
    assert m as real * lo <= 0.0 <= m as real * hi;
  }

  /** When every reward lies in [lo, hi] and that range contains 0, so does
      every node's reward (the count includes instances of other actions,
      whose rewards count as 0). */
  lemma RewardWithin<K>(nodes: seq<Node<K>>, log: seq<Instance<K>>, i: nat, a: K, lo: real, hi: real)
    requires RewardsWithin(log, lo, hi) && lo <= 0.0 <= hi
    requires Reward(nodes, log, i, a).Ok?
    ensures lo <= Reward(nodes, log, i, a).value <= hi
  {
    RewardSumsWithin(nodes, log, i, 0.0, 0, a, lo, hi);
    var (t, c) := RewardSums(nodes, log, i, 0.0, 0, a);
    var d := c as real;
    assert d > 0.0;
    assert Scaled(t, c, lo, hi);
    assert d * lo <= t <= d * hi;
    assert t / d * d == t;
  }

  /** The action nodes on a node's chain whose action is `a`. */
  ghost predicate NoActionOnChain<K>(nodes: seq<Node<K>>, i: nat, a: K)
  {
    forall j :: j in Chain(nodes, i) && j < |nodes| ==> nodes[j].kind != ActionNode(a)
  }

  /** With no action node for `a` on the chain, only the count grows. */
  lemma {:induction false} RewardSumsNoMatch<K>(nodes: seq<Node<K>>, log: seq<Instance<K>>, i: nat, total: real, count: nat, a: K)
    requires NoActionOnChain(nodes, i, a)
    ensures RewardSums(nodes, log, i, total, count, a).0 == total
    decreases i
  {
    if !(i == 0 || i >= |nodes| || nodes[i].parent >= i) {
      assert nodes[i].kind != ActionNode(a) by { assert i in Chain(nodes, i); }
      assert NoActionOnChain(nodes, nodes[i].parent, a) by {
        forall j | j in Chain(nodes, nodes[i].parent) && j < |nodes| ensures nodes[j].kind != ActionNode(a) {
          assert j in Chain(nodes, i);
        }
      }
      var n := nodes[i];
      RewardSumsNoMatch(nodes, log, n.parent, total, count + (if n.kind.ActionNode? then |n.instances| else 0), a);
    }
  }

  /** A node whose chain never took action `a` has reward 0 for `a`. */
  lemma RewardOfUntakenAction<K>(nodes: seq<Node<K>>, log: seq<Instance<K>>, i: nat, a: K)
    requires WF(nodes, log) && 0 < i < |nodes| && NoActionOnChain(nodes, i, a)
    ensures Reward(nodes, log, i, a) == Ok(0.0)
  {
    RewardDefined(nodes, log, i, a);
    RewardSumsNoMatch(nodes, log, i, 0.0, 0, a);
  }

  // ---------------------------------------------------------------------
  // Transition statistics

  /** `_tau`: the instances of the action nodes for `a` on node `i`'s chain,
      nearest node first. */
  function Tau<K(==)>(nodes: seq<Node<K>>, i: nat, a: K): seq<nat>
    decreases i
  {
    if i == 0 || i >= |nodes| || nodes[i].parent >= i then []
    else (if nodes[i].kind == ActionNode(a) then nodes[i].instances else []) + Tau(nodes, nodes[i].parent, a)
  }

  /** Every instance in `_tau` is in the log. */
  lemma {:induction false} TauInLog<K>(nodes: seq<Node<K>>, log: seq<Instance<K>>, i: nat, a: K)
    requires WF(nodes, log)
    ensures forall c :: c in Tau(nodes, i, a) ==> c < |log|
    decreases i
  {
    if !(i == 0 || i >= |nodes| || nodes[i].parent >= i) {
      assert NodeOK(nodes, log, i);
      TauInLog(nodes, log, nodes[i].parent, a);
    }
  }

  /** How many of the instances at positions `cs` are assigned to node `s`. */
  function CountAssigned(nodeOf: seq<nat>, cs: seq<nat>, s: nat): (r: nat)
    ensures r <= |cs|
    decreases |cs|
  {
    if cs == [] then 0
    else
      var c := cs[|cs| - 1];
      CountAssigned(nodeOf, cs[..|cs| - 1], s) + (if c < |nodeOf| && nodeOf[c] == s then 1 else 0)
  }

  /** `pr(s1, s2, a)`: with no `_tau` evidence, 1/|states| (a ZeroDivisionError
      when there is no state); otherwise the fraction of the `_tau` instances
      assigned to `s2`. */
  function Pr<K(==)>(nodes: seq<Node<K>>, nodeOf: seq<nat>, stateCount: nat, s1: nat, s2: nat, a: K): (r: Result<real>)
    ensures r.Err? <==> |Tau(nodes, s1, a)| == 0 && stateCount == 0
    ensures r.Err? ==> r.error == ZeroDivisionError
    ensures r.Ok? ==> 0.0 <= r.value <= 1.0
  {
    var tau := Tau(nodes, s1, a);
    if |tau| == 0 then
      if stateCount == 0 then Err(ZeroDivisionError) else Ok(1.0 / stateCount as real)
    else
      Ok(CountAssigned(nodeOf, tau, s2) as real / |tau| as real)
  }

  function PrValue<K(==)>(nodes: seq<Node<K>>, nodeOf: seq<nat>, stateCount: nat, s1: nat, s2: nat, a: K): real
  {
    match Pr(nodes, nodeOf, stateCount, s1, s2, a)
    case Ok(v) => v
    case Err(_) => 0.0
  }

  /** The sum of `pr(s1, t, a)` over the targets `t` other than `s1`. */
  function OffDiagonalTotal<K(==)>(nodes: seq<Node<K>>, nodeOf: seq<nat>, stateCount: nat, s1: nat, targets: seq<nat>, a: K): real
    decreases |targets|
  {
    if targets == [] then 0.0
    else
      var t := targets[|targets| - 1];
      var own := if t != s1 then PrValue(nodes, nodeOf, stateCount, s1, t, a) else 0.0;
      OffDiagonalTotal(nodes, nodeOf, stateCount, s1, targets[..|targets| - 1], a) + own
  }

  ghost predicate Distinct(xs: seq<nat>)
  {
    forall i, j :: 0 <= i < j < |xs| ==> xs[i] != xs[j]
  }

  /** How many of the targets the instance at `c` is assigned to. */
  function Hits(nodeOf: seq<nat>, c: nat, targets: seq<nat>): nat
    decreases |targets|
  {
    if targets == [] then 0
    else
      var t := targets[|targets| - 1];
      Hits(nodeOf, c, targets[..|targets| - 1]) + (if c < |nodeOf| && nodeOf[c] == t then 1 else 0)
  }

  lemma {:induction false} HitsAtMostOne(nodeOf: seq<nat>, c: nat, targets: seq<nat>)
    requires Distinct(targets)
    ensures Hits(nodeOf, c, targets) <= 1
    ensures c < |nodeOf| && nodeOf[c] in targets <==> Hits(nodeOf, c, targets) == 1
    decreases |targets|
  {
    if targets != [] {
      var init := targets[..|targets| - 1];
      HitsAtMostOne(nodeOf, c, init);
      assert targets == init + [targets[|targets| - 1]];
      if c < |nodeOf| && nodeOf[c] == targets[|targets| - 1] {
        assert nodeOf[c] !in init;
      }
    }
  }

  /** The sum over the targets of how many of `cs` are assigned to each one. */
  function CountsOver(nodeOf: seq<nat>, cs: seq<nat>, targets: seq<nat>): nat
    decreases |targets|
  {
    if targets == [] then 0
    else CountsOver(nodeOf, cs, targets[..|targets| - 1]) + CountAssigned(nodeOf, cs, targets[|targets| - 1])
  }

  lemma {:induction false} CountsOverStep(nodeOf: seq<nat>, cs: seq<nat>, targets: seq<nat>)
    requires cs != []
    ensures CountsOver(nodeOf, cs, targets)
      == CountsOver(nodeOf, cs[..|cs| - 1], targets) + Hits(nodeOf, cs[|cs| - 1], targets)
    decreases |targets|
  {
    if targets != [] {
      CountsOverStep(nodeOf, cs, targets[..|targets| - 1]);
    }
  }

  /** Each instance is assigned one node, so over distinct targets the counts
      add up to at most the number of instances. */
  lemma {:induction false} CountsOverBound(nodeOf: seq<nat>, cs: seq<nat>, targets: seq<nat>)
    requires Distinct(targets)
    ensures CountsOver(nodeOf, cs, targets) <= |cs|
    decreases |cs|
  {
    if cs == [] {
      CountsOverEmpty(nodeOf, targets);
    } else {
      CountsOverStep(nodeOf, cs, targets);
      CountsOverBound(nodeOf, cs[..|cs| - 1], targets);
      HitsAtMostOne(nodeOf, cs[|cs| - 1], targets);
    }
  }

  lemma {:induction false} CountsOverEmpty(nodeOf: seq<nat>, targets: seq<nat>)
    ensures CountsOver(nodeOf, [], targets) == 0
    decreases |targets|
  {
    if targets != [] {
      CountsOverEmpty(nodeOf, targets[..|targets| - 1]);
    }
  }

  /** With evidence, the off-diagonal total is at most the counts over all
      targets divided by |tau|. */
  lemma {:induction false} OffDiagonalWithEvidence<K>(nodes: seq<Node<K>>, nodeOf: seq<nat>, stateCount: nat, s1: nat, targets: seq<nat>, a: K)
    requires |Tau(nodes, s1, a)| > 0
    ensures OffDiagonalTotal(nodes, nodeOf, stateCount, s1, targets, a)
      <= CountsOver(nodeOf, Tau(nodes, s1, a), targets) as real / |Tau(nodes, s1, a)| as real
    decreases |targets|
  {
    if targets != [] {
      var tau := Tau(nodes, s1, a);
      var d := |tau| as real;
      var init := targets[..|targets| - 1];
      var t := targets[|targets| - 1];
      OffDiagonalWithEvidence(nodes, nodeOf, stateCount, s1, init, a);
      var x := CountsOver(nodeOf, tau, init) as real;
      var y := CountAssigned(nodeOf, tau, t) as real;
      assert PrValue(nodes, nodeOf, stateCount, s1, t, a) == y / d;
      DivAdd(x, y, d);
    }
  }

  /** Without evidence, every off-diagonal target gets 1/|states|. */
  lemma {:induction false} OffDiagonalWithoutEvidence<K>(nodes: seq<Node<K>>, nodeOf: seq<nat>, stateCount: nat, s1: nat, targets: seq<nat>, a: K)
    requires |Tau(nodes, s1, a)| == 0 && stateCount > 0
    ensures OffDiagonalTotal(nodes, nodeOf, stateCount, s1, targets, a)
      == OthersCount(targets, s1) as real / stateCount as real
    decreases |targets|
  {
    if targets != [] {
      var d := stateCount as real;
      var init := targets[..|targets| - 1];
      OffDiagonalWithoutEvidence(nodes, nodeOf, stateCount, s1, init, a);
      var x := OthersCount(init, s1) as real;
      DivAdd(x, 1.0, d);
    }
  }

  /** How many targets differ from `s`. */
  function OthersCount(targets: seq<nat>, s: nat): (r: nat)
    ensures r <= |targets|
    decreases |targets|
  {
    if targets == [] then 0
    else OthersCount(targets[..|targets| - 1], s) + (if targets[|targets| - 1] != s then 1 else 0)
  }

  /** A row of the transition table sums to at most 1 over any distinct
      targets, at most as many as there are states; without evidence it is
      exactly the share of the other targets. */
  lemma PrRowTotal<K>(nodes: seq<Node<K>>, nodeOf: seq<nat>, stateCount: nat, s1: nat, targets: seq<nat>, a: K)
    requires Distinct(targets) && |targets| <= stateCount
    ensures 0.0 <= OffDiagonalTotal(nodes, nodeOf, stateCount, s1, targets, a) <= 1.0
    ensures |Tau(nodes, s1, a)| == 0 && stateCount > 0 ==>
      OffDiagonalTotal(nodes, nodeOf, stateCount, s1, targets, a) == OthersCount(targets, s1) as real / stateCount as real
  {
    OffDiagonalNonNegative(nodes, nodeOf, stateCount, s1, targets, a);
    var tau := Tau(nodes, s1, a);
    if |tau| > 0 {
      OffDiagonalWithEvidence(nodes, nodeOf, stateCount, s1, targets, a);
      CountsOverBound(nodeOf, tau, targets);
      DivAtMostOne(CountsOver(nodeOf, tau, targets) as real, |tau| as real);
    } else if stateCount > 0 {
      OffDiagonalWithoutEvidence(nodes, nodeOf, stateCount, s1, targets, a);
      DivAtMostOne(OthersCount(targets, s1) as real, stateCount as real);
    } else {
      OffDiagonalZero(nodes, nodeOf, stateCount, s1, targets, a);
    }
  }

  lemma {:induction false} OffDiagonalNonNegative<K>(nodes: seq<Node<K>>, nodeOf: seq<nat>, stateCount: nat, s1: nat, targets: seq<nat>, a: K)
    ensures 0.0 <= OffDiagonalTotal(nodes, nodeOf, stateCount, s1, targets, a)
    decreases |targets|
  {
    if targets != [] {
      OffDiagonalNonNegative(nodes, nodeOf, stateCount, s1, targets[..|targets| - 1], a);
    }
  }

  lemma {:induction false} OffDiagonalZero<K>(nodes: seq<Node<K>>, nodeOf: seq<nat>, stateCount: nat, s1: nat, targets: seq<nat>, a: K)
    requires |targets| == 0
    ensures OffDiagonalTotal(nodes, nodeOf, stateCount, s1, targets, a) == 0.0
  {
  }

  /** The sum of `pr(s1, t, a)` over every target `t`, `s1` included: the
      row sum `pr`'s docstring asks to be 1. */
  function RowTotal<K(==)>(nodes: seq<Node<K>>, nodeOf: seq<nat>, stateCount: nat, s1: nat, targets: seq<nat>, a: K): real
    decreases |targets|
  {
    if targets == [] then 0.0
    else RowTotal(nodes, nodeOf, stateCount, s1, targets[..|targets| - 1], a)
           + PrValue(nodes, nodeOf, stateCount, s1, targets[|targets| - 1], a)
  }

  /** How many of the instances at positions `cs` are assigned to one of the targets. */
  function AssignedAmong(nodeOf: seq<nat>, cs: seq<nat>, targets: seq<nat>): nat
    decreases |cs|
  {
    if cs == [] then 0
    else
      var c := cs[|cs| - 1];
      AssignedAmong(nodeOf, cs[..|cs| - 1], targets) + (if c < |nodeOf| && nodeOf[c] in targets then 1 else 0)
  }

  /** Over all the states, listed once each, the row sum is 1 without
      `_tau` evidence; with evidence it is the share of the `_tau` instances
      assigned to a state, so it is at most 1, and exactly 1 when every
      `_tau` instance is assigned to one of the states. */
  lemma RowTotalExact<K>(nodes: seq<Node<K>>, nodeOf: seq<nat>, stateCount: nat, s1: nat, targets: seq<nat>, a: K)
    requires Distinct(targets) && |targets| == stateCount && 0 < stateCount
    ensures |Tau(nodes, s1, a)| == 0 ==> RowTotal(nodes, nodeOf, stateCount, s1, targets, a) == 1.0
    ensures |Tau(nodes, s1, a)| > 0 ==>
      RowTotal(nodes, nodeOf, stateCount, s1, targets, a)
        == AssignedAmong(nodeOf, Tau(nodes, s1, a), targets) as real / |Tau(nodes, s1, a)| as real
    ensures RowTotal(nodes, nodeOf, stateCount, s1, targets, a) <= 1.0
    ensures RowTotal(nodes, nodeOf, stateCount, s1, targets, a) == 1.0
      <==> forall c :: c in Tau(nodes, s1, a) ==> c < |nodeOf| && nodeOf[c] in targets
  {
    var tau := Tau(nodes, s1, a);
    if |tau| == 0 {
      RowTotalWithoutEvidence(nodes, nodeOf, stateCount, s1, targets, a);
    } else {
      RowTotalWithEvidence(nodes, nodeOf, stateCount, s1, targets, a);
      CountsOverAssigned(nodeOf, tau, targets);
      AssignedAmongAll(nodeOf, tau, targets);
      ShareAtMostOne(AssignedAmong(nodeOf, tau, targets), |tau|);
    }
  }

  /** A share `x / d` of whole counts is at most 1, and 1 exactly when `x == d`. */
  lemma ShareAtMostOne(x: nat, d: nat)
    requires 0 < d && x <= d
    ensures x as real / d as real <= 1.0
    ensures x as real / d as real == 1.0 <==> x == d
  {
    DivAtMostOne(x as real, d as real);
    if x as real / d as real == 1.0 {
      assert x as real == d as real;
    }
  }

  lemma {:induction false} RowTotalWithoutEvidence<K>(nodes: seq<Node<K>>, nodeOf: seq<nat>, stateCount: nat, s1: nat, targets: seq<nat>, a: K)
    requires |Tau(nodes, s1, a)| == 0 && stateCount > 0
    ensures RowTotal(nodes, nodeOf, stateCount, s1, targets, a) == |targets| as real / stateCount as real
    decreases |targets|
  {
    if targets != [] {
      RowTotalWithoutEvidence(nodes, nodeOf, stateCount, s1, targets[..|targets| - 1], a);
      DivAdd((|targets| - 1) as real, 1.0, stateCount as real);
    }
  }

  lemma {:induction false} RowTotalWithEvidence<K>(nodes: seq<Node<K>>, nodeOf: seq<nat>, stateCount: nat, s1: nat, targets: seq<nat>, a: K)
    requires |Tau(nodes, s1, a)| > 0
    ensures RowTotal(nodes, nodeOf, stateCount, s1, targets, a)
      == CountsOver(nodeOf, Tau(nodes, s1, a), targets) as real / |Tau(nodes, s1, a)| as real
    decreases |targets|
  {
    if targets != [] {
      var tau := Tau(nodes, s1, a);
      var init := targets[..|targets| - 1];
      RowTotalWithEvidence(nodes, nodeOf, stateCount, s1, init, a);
      DivAdd(CountsOver(nodeOf, tau, init) as real, CountAssigned(nodeOf, tau, targets[|targets| - 1]) as real, |tau| as real);
    }
  }

  /** Over distinct targets, the per-target counts add up to the number of
      instances assigned to some target. */
  lemma {:induction false} CountsOverAssigned(nodeOf: seq<nat>, cs: seq<nat>, targets: seq<nat>)
    requires Distinct(targets)
    ensures CountsOver(nodeOf, cs, targets) == AssignedAmong(nodeOf, cs, targets)
    decreases |cs|
  {
    if cs == [] {
      CountsOverEmpty(nodeOf, targets);
    } else {
      CountsOverStep(nodeOf, cs, targets);
      CountsOverAssigned(nodeOf, cs[..|cs| - 1], targets);
      HitsAtMostOne(nodeOf, cs[|cs| - 1], targets);
    }
  }

  /** At most every instance is assigned to a target, and all are exactly
      when each one is. */
  lemma {:induction false} AssignedAmongAll(nodeOf: seq<nat>, cs: seq<nat>, targets: seq<nat>)
    ensures AssignedAmong(nodeOf, cs, targets) <= |cs|
    ensures AssignedAmong(nodeOf, cs, targets) == |cs| <==> forall c :: c in cs ==> c < |nodeOf| && nodeOf[c] in targets
    decreases |cs|
  {
    if cs != [] {
      var init := cs[..|cs| - 1];
      var c := cs[|cs| - 1];
      AssignedAmongAll(nodeOf, init, targets);
      assert cs == init + [c];
      assert forall x :: x in cs <==> x in init || x == c;
      var ok := c < |nodeOf| && nodeOf[c] in targets;
      assert (forall x :: x in cs ==> x < |nodeOf| && nodeOf[x] in targets)
        <==> (forall x :: x in init ==> x < |nodeOf| && nodeOf[x] in targets) && ok;
    }
  }

  lemma DivAdd(x: real, y: real, d: real)
    requires d > 0.0 && y >= 0.0
    ensures x / d + y / d == (x + y) / d
    ensures y / d >= 0.0
  {
  }

  lemma DivAtMostOne(x: real, d: real)
    requires d > 0.0 && 0.0 <= x <= d
    ensures 0.0 <= x / d <= 1.0
  {
  }

  // ---------------------------------------------------------------------
  // Fringe matching

  /** The instance `t` steps before the one at `c` agrees with the `t`-th
      instance of the window starting at `lo`. */
  predicate AgreesAt<K(==)>(log: seq<Instance<K>>, c: nat, lo: nat, t: nat)
    requires t <= c < |log| && lo + t < |log|
  {
    log[c - t].EqlI(log[lo + t])
  }

  /** The test of `_insert_fringe`: going back from the instance at `c`
      through its predecessors, for as many steps as the fringe depth allows
      and the log has, each instance agrees with the window's instance at the
      same offset from the window's oldest. */
  predicate Matches<K(==)>(log: seq<Instance<K>>, c: nat, lo: nat, depth: nat)
    requires c < |log| && lo <= |log| && Min(depth, c + 1) <= |log| - lo
  {
    forall t :: 0 <= t < Min(depth, c + 1) ==> AgreesAt(log, c, lo, t)
  }

  // ---------------------------------------------------------------------
  // Observation statistics

  /** How many of the first `m` instances took action `a` and are assigned to `state`. */
  function ObservedCount<K(==)>(log: seq<Instance<K>>, nodeOf: seq<nat>, state: nat, a: K, m: nat): nat
    requires m <= |log|
  {
    if m == 0 then 0
    else
      var hit := a == log[m - 1].action && m - 1 < |nodeOf| && nodeOf[m - 1] == state;
      ObservedCount(log, nodeOf, state, a, m - 1) + (if hit then 1 else 0)
  }

  /** Those of them that also observed `o`. */
  function SeenCount<K(==)>(log: seq<Instance<K>>, nodeOf: seq<nat>, state: nat, a: K, o: K, m: nat): (r: nat)
    requires m <= |log|
    ensures r <= ObservedCount(log, nodeOf, state, a, m)
  {
    if m == 0 then 0
    else
      var hit := a == log[m - 1].action && m - 1 < |nodeOf| && nodeOf[m - 1] == state && log[m - 1].observation == o;
      SeenCount(log, nodeOf, state, a, o, m - 1) + (if hit then 1 else 0)
  }

  /** `observation_fn(state, a, o)`: a ValueError on an empty log; with no
      instance of `a` assigned to `state`, one over the number of known
      observations (a TypeError when they are unknown, a ZeroDivisionError when
      there are none); otherwise the share of those instances that observed `o`. */
  function ObservationFn<K(==)>(log: seq<Instance<K>>, nodeOf: seq<nat>, space: Option<seq<K>>, state: nat, a: K, o: K): (r: Result<real>)
    ensures r == Err(ValueError) <==> |log| == 0
    ensures r == Err(TypeError) <==> |log| > 0 && ObservedCount(log, nodeOf, state, a, |log|) == 0 && space.None?
    ensures r == Err(ZeroDivisionError) <==> |log| > 0 && ObservedCount(log, nodeOf, state, a, |log|) == 0 && space == Some([])
    ensures r.Ok? <==> |log| > 0 && (ObservedCount(log, nodeOf, state, a, |log|) > 0 || (space.Some? && |space.value| > 0))
    ensures r.Ok? ==> 0.0 <= r.value <= 1.0
    ensures r.Ok? && ObservedCount(log, nodeOf, state, a, |log|) == 0 ==> r.value > 0.0
  {
    if |log| == 0 then Err(ValueError)
    else
      var observed := ObservedCount(log, nodeOf, state, a, |log|);
      if observed == 0 then
        match space
        case None => Err(TypeError)
        case Some(os) => if |os| == 0 then Err(ZeroDivisionError) else Ok(1.0 / |os| as real)
      else
        Ok(SeenCount(log, nodeOf, state, a, o, |log|) as real / observed as real)
  }

  /** Over distinct observations, the counts add up to at most the instances observed. */
  function SeenOver<K(==)>(log: seq<Instance<K>>, nodeOf: seq<nat>, state: nat, a: K, os: seq<K>, m: nat): nat
    requires m <= |log|
    decreases |os|
  {
    if os == [] then 0
    else SeenOver(log, nodeOf, state, a, os[..|os| - 1], m) + SeenCount(log, nodeOf, state, a, os[|os| - 1], m)
  }

  lemma {:induction false} SeenOverBound<K>(log: seq<Instance<K>>, nodeOf: seq<nat>, state: nat, a: K, os: seq<K>, m: nat)
    requires m <= |log|
    requires forall i, j :: 0 <= i < j < |os| ==> os[i] != os[j]
    ensures SeenOver(log, nodeOf, state, a, os, m) <= ObservedCount(log, nodeOf, state, a, m)
    ensures (forall c :: 0 <= c < m ==> log[c].observation in os)
      ==> SeenOver(log, nodeOf, state, a, os, m) == ObservedCount(log, nodeOf, state, a, m)
    decreases m
  {
    if m == 0 {
      SeenOverZero(log, nodeOf, state, a, os);
    } else {
      SeenOverBound(log, nodeOf, state, a, os, m - 1);
      SeenOverStep(log, nodeOf, state, a, os, m);
    }
  }

  lemma {:induction false} SeenOverZero<K>(log: seq<Instance<K>>, nodeOf: seq<nat>, state: nat, a: K, os: seq<K>)
    ensures SeenOver(log, nodeOf, state, a, os, 0) == 0
    decreases |os|
  {
    if os != [] {
      SeenOverZero(log, nodeOf, state, a, os[..|os| - 1]);
    }
  }

  /** The `m`-th instance adds one to the observation it made, if it is
      listed, and nothing to the others. */
  lemma {:induction false} SeenOverStep<K>(log: seq<Instance<K>>, nodeOf: seq<nat>, state: nat, a: K, os: seq<K>, m: nat)
    requires 0 < m <= |log|
    requires forall i, j :: 0 <= i < j < |os| ==> os[i] != os[j]
    ensures var hit := a == log[m - 1].action && m - 1 < |nodeOf| && nodeOf[m - 1] == state;
      SeenOver(log, nodeOf, state, a, os, m)
        == SeenOver(log, nodeOf, state, a, os, m - 1) + (if hit && log[m - 1].observation in os then 1 else 0)
    decreases |os|
  {
    if os != [] {
      var init := os[..|os| - 1];
      SeenOverStep(log, nodeOf, state, a, init, m);
      assert os == init + [os[|os| - 1]];
    }
  }

  /** `observation_fn` over distinct observations adds up to at most 1, and
      to exactly 1 when they include every observation in the log and the
      known observations are those listed. */
  lemma ObservationFnTotal<K>(log: seq<Instance<K>>, nodeOf: seq<nat>, state: nat, a: K, os: seq<K>)
    requires |log| > 0 && |os| > 0
    requires forall i, j :: 0 <= i < j < |os| ==> os[i] != os[j]
    ensures 0.0 <= ObservationTotal(log, nodeOf, Some(os), state, a, os) <= 1.0
    ensures (forall c :: 0 <= c < |log| ==> log[c].observation in os)
      ==> ObservationTotal(log, nodeOf, Some(os), state, a, os) == 1.0
  {
    var observed := ObservedCount(log, nodeOf, state, a, |log|);
    var total := ObservationTotal(log, nodeOf, Some(os), state, a, os);
    if observed == 0 {
      ObservationTotalUniform(log, nodeOf, state, a, os, os);
      assert total == |os| as real / |os| as real;
      SelfDiv(|os| as real);
    } else {
      var seen := SeenOver(log, nodeOf, state, a, os, |log|);
      SeenOverBound(log, nodeOf, state, a, os, |log|);
      ObservationTotalCounts(log, nodeOf, state, a, os, os);
      assert total == seen as real / observed as real;
      DivAtMostOne(seen as real, observed as real);
      if forall c :: 0 <= c < |log| ==> log[c].observation in os {
        assert seen == observed;
        SelfDiv(observed as real);
      }
    }
  }

  lemma SelfDiv(d: real)
    requires d > 0.0
    ensures d / d == 1.0
  {
  }

  /** The sum of `observation_fn(state, a, o)` over the observations `targets`. */
  function ObservationTotal<K(==)>(log: seq<Instance<K>>, nodeOf: seq<nat>, space: Option<seq<K>>, state: nat, a: K, targets: seq<K>): real
    decreases |targets|
  {
    if targets == [] then 0.0
    else
      var own := match ObservationFn(log, nodeOf, space, state, a, targets[|targets| - 1])
        case Ok(v) => v
        case Err(_) => 0.0;
      ObservationTotal(log, nodeOf, space, state, a, targets[..|targets| - 1]) + own
  }

  lemma {:induction false} ObservationTotalUniform<K>(log: seq<Instance<K>>, nodeOf: seq<nat>, state: nat, a: K, os: seq<K>, targets: seq<K>)
    requires |log| > 0 && |os| > 0 && ObservedCount(log, nodeOf, state, a, |log|) == 0
    ensures ObservationTotal(log, nodeOf, Some(os), state, a, targets) == |targets| as real / |os| as real
    decreases |targets|
  {
    if targets != [] {
      ObservationTotalUniform(log, nodeOf, state, a, os, targets[..|targets| - 1]);
      DivAdd((|targets| - 1) as real, 1.0, |os| as real);
    }
  }

  lemma {:induction false} ObservationTotalCounts<K>(log: seq<Instance<K>>, nodeOf: seq<nat>, state: nat, a: K, os: seq<K>, targets: seq<K>)
    requires |log| > 0 && ObservedCount(log, nodeOf, state, a, |log|) > 0
    ensures ObservationTotal(log, nodeOf, Some(os), state, a, targets)
      == SeenOver(log, nodeOf, state, a, targets, |log|) as real / ObservedCount(log, nodeOf, state, a, |log|) as real
    decreases |targets|
  {
    if targets != [] {
      var init := targets[..|targets| - 1];
      ObservationTotalCounts(log, nodeOf, state, a, os, init);
      DivAdd(SeenOver(log, nodeOf, state, a, init, |log|) as real,
             SeenCount(log, nodeOf, state, a, targets[|targets| - 1], |log|) as real,
             ObservedCount(log, nodeOf, state, a, |log|) as real);
    }
  }

  // ---------------------------------------------------------------------
  // Belief lookup

  /** The node assignment is total on the log and lands in the trie, and the
      trie's instances are in the log. */
  ghost predicate TreeOK<K>(nodes: seq<Node<K>>, nodeOf: seq<nat>)
  {
    && ChildrenInRange(nodes)
    && (forall c :: 0 <= c < |nodeOf| ==> nodeOf[c] < |nodes|)
    && (forall i, j :: 0 <= i < |nodes| && 0 <= j < |nodes[i].instances| ==> nodes[i].instances[j] < |nodeOf|)
  }

  /** `_leaves`: the assigned nodes of the instances `cs` that are leaves, in order. */
  function Leaves<K>(nodes: seq<Node<K>>, nodeOf: seq<nat>, cs: seq<nat>): (r: seq<nat>)
    requires TreeOK(nodes, nodeOf)
    requires forall j :: 0 <= j < |cs| ==> cs[j] < |nodeOf|
    ensures forall j :: 0 <= j < |r| ==> r[j] < |nodes| && IsLeaf(nodes, r[j])
    ensures |r| <= |cs|
    decreases |cs|
  {
    if cs == [] then []
    else
      var s := nodeOf[cs[0]];
      (if IsLeaf(nodes, s) then [s] else []) + Leaves(nodes, nodeOf, cs[1..])
  }

  /** `traverse`, from node `current` on: before each instance, stop at a
      fringe node (answering its parent) or at a leaf (answering the leaf);
      follow the instance's action and then its observation, answering the
      leaves among the current node's instances' nodes when a key is missing;
      nothing when the instances run out. */
  function TraverseFrom<K(==)>(nodes: seq<Node<K>>, nodeOf: seq<nat>, current: nat, xs: seq<Instance<K>>): Option<seq<nat>>
    requires TreeOK(nodes, nodeOf) && current < |nodes|
    decreases |xs|
  {
    if xs == [] then None
    else if nodes[current].isFringe then Some([nodes[current].parent])
    else if IsLeaf(nodes, current) then Some([current])
    else match Child(nodes, current, xs[0].action)
      case None => Some(Leaves(nodes, nodeOf, nodes[current].instances))
      case Some(an) =>
        match Child(nodes, an, xs[0].observation)
        case None => Some(Leaves(nodes, nodeOf, nodes[an].instances))
        case Some(on) => TraverseFrom(nodes, nodeOf, on, xs[1..])
  }

  /** When every node but the root is fringe and the root is not, the root is
      a leaf, so traversal stops there at once. */
  lemma TraverseStopsAtRoot<K>(nodes: seq<Node<K>>, nodeOf: seq<nat>, xs: seq<Instance<K>>)
    requires TreeOK(nodes, nodeOf) && |nodes| > 0 && !nodes[0].isFringe && AllFringe(nodes)
    requires forall k :: k in nodes[0].children ==> nodes[0].children[k] > 0
    ensures TraverseFrom(nodes, nodeOf, 0, xs) == if xs == [] then None else Some([0])
  {
    assert IsLeaf(nodes, 0);
  }
}
