/** The Utile Suffix Memory (pcog/usm.py): an append-only log of instances,
    the suffix trie built from them, and the registered states. */
module Usm {
  import opened Wrappers
  import opened UsmTree

  /** Log positions `hi - 1` down to `lo`: a window, most recent first. */
  function Recent(lo: nat, hi: nat): (ps: seq<nat>)
    requires lo <= hi
    ensures |ps| == hi - lo
    ensures forall j :: 0 <= j < |ps| ==> ps[j] == hi - 1 - j
    decreases hi - lo
  {
    if lo == hi then [] else [hi - 1] + Recent(lo, hi - 1)
  }

  /** Log positions `lo` up to `hi - 1`, oldest first. */
  function Span(lo: nat, hi: nat): (ps: seq<nat>)
    requires lo <= hi
    ensures |ps| == hi - lo
    ensures forall j :: 0 <= j < |ps| ==> ps[j] == lo + j
    decreases hi - lo
  {
    if lo == hi then [] else [lo] + Span(lo + 1, hi)
  }

  /** A node that may be registered as a state or assigned to an instance. */
  ghost predicate IsState<K>(nodes: seq<Node<K>>, s: nat)
  {
    0 < s < |nodes| && nodes[s].kind.ObservationNode?
  }

  lemma {:induction false} ExtendsTrans<K>(a: seq<Node<K>>, b: seq<Node<K>>, c: seq<Node<K>>)
    requires Extends(a, b) && Extends(b, c)
    ensures Extends(a, c)
  {
    forall i | 0 <= i < |a| ensures Kept(a[i], c[i], |a|) {
      assert Kept(a[i], b[i], |a|);
      assert Kept(b[i], c[i], |b|);
    }
  }

  /** Node `j` lies below `start` no deeper than the rounds over `ps` reach,
      and holds the instance of the round that created it: round `k` creates
      the action node `2k + 1` levels below `start` and the observation node
      one level further, both holding the instance at `ps[k]`. */
  ghost predicate HoldsRound<K>(nodes: seq<Node<K>>, start: nat, ps: seq<nat>, j: nat)
  {
    && start < |nodes| && j < |nodes|
    && Depth(nodes, start) < Depth(nodes, j) <= Depth(nodes, start) + 2 * |ps|
    && nodes[j].instances == [ps[(Depth(nodes, j) - Depth(nodes, start) - 1) / 2]]
  }

  /** An extension keeps depths and instances, so it keeps `HoldsRound`. */
  lemma HoldsRoundKept<K>(before: seq<Node<K>>, after: seq<Node<K>>, start: nat, ps: seq<nat>, j: nat)
    requires Extends(before, after) && HoldsRound(before, start, ps, j)
    ensures HoldsRound(after, start, ps, j)
  {
    ChainExtends(before, after, start);
    ChainExtends(before, after, j);
    assert Kept(before[j], after[j], |before|);
  }

  /** What `_insert_instances` has achieved after following the positions
      `ps` from `start` in `orig`, arriving at `r` in `nodes`. */
  ghost predicate Inserted<K>(orig: seq<Node<K>>, nodes: seq<Node<K>>, log: seq<Instance<K>>,
                              start: nat, ps: seq<nat>, r: nat, fringe: bool)
  {
    && WF(nodes, log) && r < |nodes| && start < |orig|
    && Extends(orig, nodes) && FlagsKept(orig, nodes)
    && (forall j :: |orig| <= j < |nodes| ==> nodes[j].isFringe == fringe && j in Chain(nodes, r))
    && (forall j :: |orig| <= j < |nodes| ==> HoldsRound(nodes, start, ps, j))
    && (|nodes| > |orig| ==> r == |nodes| - 1 && nodes[r].children == map[])
    && Walk(nodes, log, start, ps) == Some(r)
    && Depth(nodes, r) == Depth(nodes, start) + 2 * |ps|
    && (ps == [] ==> r == start)
    && (ps != [] ==> nodes[r].kind.ObservationNode?)
  }

  lemma InsertedStart<K>(nodes: seq<Node<K>>, log: seq<Instance<K>>, start: nat, fringe: bool)
    requires WF(nodes, log) && start < |nodes|
    ensures Inserted(nodes, nodes, log, start, [], start, fringe)
  {
    ChainExtends(nodes, nodes, start);
  }

  /** One more round keeps `Inserted`. */
  lemma InsertedStep<K>(orig: seq<Node<K>>, n0: seq<Node<K>>, nodes: seq<Node<K>>, log: seq<Instance<K>>,
                        start: nat, ps: seq<nat>, r: nat, p: nat, next: nat, fringe: bool)
    requires Inserted(orig, n0, log, start, ps, r, fringe)
    requires WF(nodes, log) && Extends(n0, nodes) && FlagsKept(n0, nodes) && p < |log|
    requires next < |nodes| && nodes[next].kind.ObservationNode?
    requires Step(nodes, r, log[p]) == Some(next)
    requires Chain(nodes, next) == [next, nodes[next].parent] + Chain(n0, r)
    requires forall j :: |n0| <= j < |nodes| ==> nodes[j].isFringe == fringe && j in Chain(nodes, next)
    requires forall j :: |n0| <= j < |nodes| ==>
      nodes[j].instances == [p] && Depth(n0, r) < Depth(nodes, j) <= Depth(n0, r) + 2
    requires |nodes| > |n0| ==> next == |nodes| - 1 && nodes[next].children == map[]
    requires n0[r].children == map[] ==> |nodes| > |n0|
    ensures Inserted(orig, nodes, log, start, ps + [p], next, fringe)
  {
    ExtendsTrans(orig, n0, nodes);
    FlagsKeptTrans(orig, n0, nodes);
    StepWalk(n0, nodes, log, start, ps, r, p, next);
    StepDepth(orig, n0, nodes, start, r, next);
    StepNewNodes(orig, n0, nodes, r, next, fringe);
    StepRounds(orig, n0, nodes, start, ps, r, p);
  }

  /** The nodes of earlier rounds keep their round; the nodes of this round
      sit one and two levels below `r` and hold `p`, the round's instance. */
  lemma StepRounds<K>(orig: seq<Node<K>>, n0: seq<Node<K>>, nodes: seq<Node<K>>,
                      start: nat, ps: seq<nat>, r: nat, p: nat)
    requires start < |orig| <= |n0| && Extends(n0, nodes)
    requires Depth(n0, r) == Depth(n0, start) + 2 * |ps|
    requires forall j :: |orig| <= j < |n0| ==> HoldsRound(n0, start, ps, j)
    requires forall j :: |n0| <= j < |nodes| ==>
      nodes[j].instances == [p] && Depth(n0, r) < Depth(nodes, j) <= Depth(n0, r) + 2
    ensures forall j :: |orig| <= j < |nodes| ==> HoldsRound(nodes, start, ps + [p], j)
  {
    ChainExtends(n0, nodes, start);
    forall j | |orig| <= j < |nodes| ensures HoldsRound(nodes, start, ps + [p], j) {
      var d := Depth(nodes, j) - Depth(nodes, start);
      if j < |n0| {
        HoldsRoundKept(n0, nodes, start, ps, j);
        assert (ps + [p])[(d - 1) / 2] == ps[(d - 1) / 2];
      } else {
        assert d == 2 * |ps| + 1 || d == 2 * |ps| + 2;
        assert (d - 1) / 2 == |ps|;
        assert (ps + [p])[|ps|] == p;
      }
    }
  }

  lemma FlagsKeptTrans<K>(a: seq<Node<K>>, b: seq<Node<K>>, c: seq<Node<K>>)
    requires |a| <= |b| <= |c| && FlagsKept(a, b) && FlagsKept(b, c)
    ensures FlagsKept(a, c)
  {
  }

  lemma StepWalk<K>(n0: seq<Node<K>>, nodes: seq<Node<K>>, log: seq<Instance<K>>,
                    start: nat, ps: seq<nat>, r: nat, p: nat, next: nat)
    requires Extends(n0, nodes) && Walk(n0, log, start, ps) == Some(r) && p < |log|
    requires Step(nodes, r, log[p]) == Some(next)
    ensures Walk(nodes, log, start, ps + [p]) == Some(next)
  {
    assert (ps + [p])[..|ps|] == ps;
    WalkExtends(n0, nodes, log, log, start, ps);
  }

  lemma StepDepth<K>(orig: seq<Node<K>>, n0: seq<Node<K>>, nodes: seq<Node<K>>, start: nat, r: nat, next: nat)
    requires Extends(orig, n0) && Extends(n0, nodes) && start < |orig| && next < |nodes|
    requires Chain(nodes, next) == [next, nodes[next].parent] + Chain(n0, r)
    ensures Depth(nodes, next) == Depth(n0, r) + 2
    ensures Depth(nodes, start) == Depth(n0, start)
  {
    ChainExtends(n0, nodes, start);
  }

  lemma StepNewNodes<K>(orig: seq<Node<K>>, n0: seq<Node<K>>, nodes: seq<Node<K>>, r: nat, next: nat, fringe: bool)
    requires |orig| <= |n0| <= |nodes| && next < |nodes|
    requires forall j :: |orig| <= j < |n0| ==> n0[j].isFringe == fringe && j in Chain(n0, r)
    requires FlagsKept(n0, nodes)
    requires Chain(nodes, next) == [next, nodes[next].parent] + Chain(n0, r)
    requires forall j :: |n0| <= j < |nodes| ==> nodes[j].isFringe == fringe && j in Chain(nodes, next)
    ensures forall j :: |orig| <= j < |nodes| ==> nodes[j].isFringe == fringe && j in Chain(nodes, next)
  {
    forall j | |orig| <= j < |nodes| ensures nodes[j].isFringe == fringe && j in Chain(nodes, next) {
      if j < |n0| {
        assert j in Chain(n0, r);
      }
    }
  }

  /** The `_insert_fringe` test for state `s`, whose first instance is at
      `nodes[s].instances[0]`, against the window starting at `lo`. */
  ghost predicate FringeMatch<K>(nodes: seq<Node<K>>, log: seq<Instance<K>>, depth: nat, s: nat, lo: nat)
  {
    && 0 < s < |nodes|
    && |nodes[s].instances| > 0
    && nodes[s].instances[0] < |log|
    && lo <= |log|
    && Min(depth, nodes[s].instances[0] + 1) <= |log| - lo
    && Matches(log, nodes[s].instances[0], lo, depth)
  }

  /** Node `j` lies on the path that the positions `post` follow below `s`,
      holding the instance of the round that created it. */
  ghost predicate OnPostPath<K>(nodes: seq<Node<K>>, log: seq<Instance<K>>, s: nat, post: seq<nat>, j: nat)
  {
    && Walk(nodes, log, s, post).Some? && j in Chain(nodes, Walk(nodes, log, s, post).value)
    && HoldsRound(nodes, s, post, j)
  }

  /** Node `j` lies on the post-suffix path below some state of `states`
      whose first instance in `orig` matched the window starting at `lo`. */
  ghost predicate BelowMatch<K>(orig: seq<Node<K>>, nodes: seq<Node<K>>, log: seq<Instance<K>>,
                                states: set<nat>, depth: nat, lo: nat, post: seq<nat>, j: nat)
  {
    exists s :: s in states && FringeMatch(orig, log, depth, s, lo) && OnPostPath(nodes, log, s, post, j)
  }

  /** A walk below `s` and the chain above its end survive an extension. */
  lemma PostPathKept<K>(before: seq<Node<K>>, after: seq<Node<K>>, log: seq<Instance<K>>, s: nat, post: seq<nat>, j: nat)
    requires Extends(before, after) && OnPostPath(before, log, s, post, j)
    ensures OnPostPath(after, log, s, post, j)
  {
    var tip := Walk(before, log, s, post).value;
    WalkExtends(before, after, log, log, s, post);
    ChainExtends(before, after, tip);
    HoldsRoundKept(before, after, s, post, j);
  }

  /** What `_insert_fringe` has achieved after visiting the states `done`:
      the trie only grew, every new node is fringe and lies on the post-suffix
      path below a matching visited state, the states are still observation
      nodes, the post-suffix hangs below each matching visited state, and
      nothing changed while no visited state matched. */
  ghost predicate FringeInserted<K>(orig: seq<Node<K>>, nodes: seq<Node<K>>, log: seq<Instance<K>>,
                                       states: set<nat>, done: set<nat>, depth: nat, lo: nat, post: seq<nat>)
  {
    && WF(nodes, log) && Extends(orig, nodes) && FlagsKept(orig, nodes)
    && (forall j :: |orig| <= j < |nodes| ==> nodes[j].isFringe)
    && (forall j :: |orig| <= j < |nodes| ==> BelowMatch(orig, nodes, log, done, depth, lo, post, j))
    && (forall s :: s in states ==> IsState(nodes, s))
    && (forall s :: s in done && FringeMatch(orig, log, depth, s, lo) ==> Walk(nodes, log, s, post).Some?)
    && ((forall s :: s in done ==> !FringeMatch(orig, log, depth, s, lo)) ==> nodes == orig)
  }

  lemma FringeInsertedStart<K>(nodes: seq<Node<K>>, log: seq<Instance<K>>, states: set<nat>,
                                depth: nat, lo: nat, post: seq<nat>)
    requires WF(nodes, log) && forall s :: s in states ==> IsState(nodes, s)
    ensures FringeInserted(nodes, nodes, log, states, {}, depth, lo, post)
  {
    assert Extends(nodes, nodes) by {
      forall i | 0 <= i < |nodes| ensures Kept(nodes[i], nodes[i], |nodes|) { }
    }
  }

  /** Inserting the post-suffix below a matching state keeps `FringeInserted`. */
  lemma FringeExtended<K>(orig: seq<Node<K>>, before: seq<Node<K>>, nodes: seq<Node<K>>, log: seq<Instance<K>>,
                          states: set<nat>, done: set<nat>, depth: nat, lo: nat, post: seq<nat>, s: nat, r: nat)
    requires FringeInserted(orig, before, log, states, done, depth, lo, post)
    requires WF(nodes, log) && Extends(before, nodes) && FlagsKept(before, nodes)
    requires forall j :: |before| <= j < |nodes| ==> nodes[j].isFringe
    requires Walk(nodes, log, s, post) == Some(r)
    requires forall j :: |before| <= j < |nodes| ==> j in Chain(nodes, r) && HoldsRound(nodes, s, post, j)
    requires s in states && FringeMatch(orig, log, depth, s, lo)
    ensures FringeInserted(orig, nodes, log, states, done + {s}, depth, lo, post)
  {
    ExtendsTrans(orig, before, nodes);
    forall j | |orig| <= j < |nodes| ensures BelowMatch(orig, nodes, log, done + {s}, depth, lo, post, j) {
      if j < |before| {
        assert BelowMatch(orig, before, log, done, depth, lo, post, j);
        var t :| t in done && FringeMatch(orig, log, depth, t, lo) && OnPostPath(before, log, t, post, j);
        PostPathKept(before, nodes, log, t, post, j);
        assert t in done + {s};
      } else {
        assert OnPostPath(nodes, log, s, post, j);
      }
    }
    FlagsKeptTrans(orig, before, nodes);
    StatesKept(before, nodes, states);
    WalksKept(orig, before, nodes, log, done, depth, lo, post);
    assert forall j :: |orig| <= j < |nodes| ==> nodes[j].isFringe by {
      forall j | |orig| <= j < |nodes| ensures nodes[j].isFringe {
        if j < |before| {
          assert before[j].isFringe;
        }
      }
    }
  }

  /** Visiting a state that does not match changes nothing and keeps `FringeInserted`. */
  lemma FringeSkipped<K>(orig: seq<Node<K>>, nodes: seq<Node<K>>, log: seq<Instance<K>>,
                         states: set<nat>, done: set<nat>, depth: nat, lo: nat, post: seq<nat>, s: nat)
    requires FringeInserted(orig, nodes, log, states, done, depth, lo, post)
    requires !FringeMatch(orig, log, depth, s, lo)
    ensures FringeInserted(orig, nodes, log, states, done + {s}, depth, lo, post)
  {
    forall j | |orig| <= j < |nodes| ensures BelowMatch(orig, nodes, log, done + {s}, depth, lo, post, j) {
      assert BelowMatch(orig, nodes, log, done, depth, lo, post, j);
      var t :| t in done && FringeMatch(orig, log, depth, t, lo) && OnPostPath(nodes, log, t, post, j);
      assert t in done + {s};
    }
  }

  lemma StatesKept<K>(before: seq<Node<K>>, nodes: seq<Node<K>>, states: set<nat>)
    requires Extends(before, nodes) && forall s :: s in states ==> IsState(before, s)
    ensures forall s :: s in states ==> IsState(nodes, s)
  {
    forall t | t in states ensures IsState(nodes, t) {
      assert Kept(before[t], nodes[t], |before|);
    }
  }

  lemma WalksKept<K>(orig: seq<Node<K>>, before: seq<Node<K>>, nodes: seq<Node<K>>, log: seq<Instance<K>>,
                     done: set<nat>, depth: nat, lo: nat, post: seq<nat>)
    requires Extends(before, nodes)
    requires forall s :: s in done && FringeMatch(orig, log, depth, s, lo) ==> Walk(before, log, s, post).Some?
    ensures forall s :: s in done && FringeMatch(orig, log, depth, s, lo) ==> Walk(nodes, log, s, post).Some?
  {
    forall t | t in done && FringeMatch(orig, log, depth, t, lo) ensures Walk(nodes, log, t, post).Some? {
      WalkExtends(before, nodes, log, log, t, post);
    }
  }

  lemma ExtendsRefl<K>(nodes: seq<Node<K>>)
    ensures Extends(nodes, nodes)
  {
    forall i | 0 <= i < |nodes| ensures Kept(nodes[i], nodes[i], |nodes|) { }
  }

  /** Moving `s` from the states still to visit to the visited ones. */
  lemma Visited(states: set<nat>, remaining: set<nat>, done: set<nat>, s: nat)
    requires s in remaining && remaining <= states && done == states - remaining
    ensures remaining - {s} < remaining && done + {s} == states - (remaining - {s})
  {
  }

  /** The effect of `ChildOrAttach` on the trie, as the proofs about the
      insertion need it: either the child under `m` for `key` already was
      `next` and nothing changed, or `next` is a new last node without
      children that holds the instance at `p` and carries the given fringe flag. */
  ghost predicate Attached<K>(before: seq<Node<K>>, after: seq<Node<K>>, m: nat, key: K, next: nat, p: nat, fringe: bool)
    requires m < |before|
  {
    && (key in before[m].children ==> after == before)
    && (key !in before[m].children ==>
          |after| == |before| + 1 && next == |before| && after[next].isFringe == fringe
          && after[next].children == map[] && after[next].instances == [p])
  }

  /** What following or attaching an action node and then an observation
      node does to the trie. */
  lemma StepFacts<K>(n0: seq<Node<K>>, n1: seq<Node<K>>, nodes: seq<Node<K>>,
                     current: nat, an: nat, next: nat, inst: Instance<K>, p: nat, fringe: bool)
    requires current < |n0| && Extends(n0, n1) && FlagsKept(n0, n1) && Extends(n1, nodes) && FlagsKept(n1, nodes)
    requires an < |n1| && Child(n1, current, inst.action) == Some(an)
    requires Chain(n1, an) == [an] + Chain(n1, current)
    requires next < |nodes| && Child(nodes, an, inst.observation) == Some(next)
    requires nodes[next].parent == an && Chain(nodes, next) == [next] + Chain(nodes, an)
    requires Attached(n0, n1, current, inst.action, an, p, fringe)
    requires Attached(n1, nodes, an, inst.observation, next, p, fringe)
    ensures Extends(n0, nodes) && FlagsKept(n0, nodes)
    ensures Step(nodes, current, inst) == Some(next)
    ensures Chain(nodes, next) == [next, nodes[next].parent] + Chain(n0, current)
    ensures forall j :: |n0| <= j < |nodes| ==> nodes[j].isFringe == fringe && j in Chain(nodes, next)
    ensures forall j :: |n0| <= j < |nodes| ==>
      nodes[j].instances == [p] && Depth(n0, current) < Depth(nodes, j) <= Depth(n0, current) + 2
    ensures |nodes| > |n0| ==> next == |nodes| - 1 && nodes[next].children == map[]
    ensures n0[current].children == map[] ==> |nodes| > |n0|
  {
    ExtendsTrans(n0, n1, nodes);
    FlagsKeptTrans(n0, n1, nodes);
    assert Child(nodes, current, inst.action) == Some(an) by {
      assert Kept(n1[current], nodes[current], |n1|);
    }
    StepChain(n0, n1, nodes, current, an, next);
    StepFlags(n0, n1, nodes, current, an, next, inst, p, fringe);
    StepInstances(n0, n1, nodes, current, an, next, inst.action, inst.observation, p, fringe);
  }

  lemma StepChain<K>(n0: seq<Node<K>>, n1: seq<Node<K>>, nodes: seq<Node<K>>, current: nat, an: nat, next: nat)
    requires current < |n0| && Extends(n0, n1) && Extends(n1, nodes)
    requires an < |n1| && Chain(n1, an) == [an] + Chain(n1, current)
    requires next < |nodes| && Chain(nodes, next) == [next] + Chain(nodes, an)
    ensures Chain(nodes, next) == [next, an] + Chain(n0, current)
  {
    ChainExtends(n0, n1, current);
    ChainExtends(n1, nodes, an);
  }

  lemma StepFlags<K>(n0: seq<Node<K>>, n1: seq<Node<K>>, nodes: seq<Node<K>>,
                     current: nat, an: nat, next: nat, inst: Instance<K>, p: nat, fringe: bool)
    requires current < |n0| <= |n1| <= |nodes| && FlagsKept(n1, nodes)
    requires an < |n1| && next < |nodes| && Chain(nodes, next) == [next, an] + Chain(n0, current)
    requires Attached(n0, n1, current, inst.action, an, p, fringe)
    requires Attached(n1, nodes, an, inst.observation, next, p, fringe)
    ensures forall j :: |n0| <= j < |nodes| ==> nodes[j].isFringe == fringe && j in Chain(nodes, next)
    ensures |nodes| > |n0| ==> next == |nodes| - 1 && nodes[next].children == map[]
    ensures n0[current].children == map[] ==> |nodes| > |n0|
  {
    if |n1| > |n0| {
      assert an == |n0| && n1[an].children == map[];
      assert |nodes| == |n1| + 1 && next == |n1|;
      forall j | |n0| <= j < |nodes| ensures nodes[j].isFringe == fringe && j in Chain(nodes, next) {
        if j != next {
          assert j == an;
        }
      }
    } else if |nodes| > |n1| {
      forall j | |n0| <= j < |nodes| ensures nodes[j].isFringe == fringe && j in Chain(nodes, next) {
        assert j == next;
      }
    }
  }

  /** The nodes a round creates, the action node one level below `current`
      and the observation node two levels below, both hold the round's instance. */
  lemma StepInstances<K>(n0: seq<Node<K>>, n1: seq<Node<K>>, nodes: seq<Node<K>>,
                         current: nat, an: nat, next: nat, action: K, observation: K, p: nat, fringe: bool)
    requires current < |n0| <= |n1| <= |nodes| && Extends(n1, nodes)
    requires an < |n1| && next < |nodes|
    requires Chain(nodes, next) == [next] + Chain(nodes, an)
    requires Chain(nodes, next) == [next, an] + Chain(n0, current)
    requires Attached(n0, n1, current, action, an, p, fringe)
    requires Attached(n1, nodes, an, observation, next, p, fringe)
    ensures forall j :: |n0| <= j < |nodes| ==>
      nodes[j].instances == [p] && Depth(n0, current) < Depth(nodes, j) <= Depth(n0, current) + 2
  {
    var d := Depth(n0, current);
    assert Depth(nodes, next) == d + 2;
    assert Depth(nodes, an) == d + 1;
    forall j | |n0| <= j < |nodes| ensures nodes[j].instances == [p] && d < Depth(nodes, j) <= d + 2 {
      if j < |n1| {
        assert j == an && n1[an].instances == [p];
        assert Kept(n1[an], nodes[an], |n1|);
      } else {
        assert j == next;
      }
    }
  }

  /** After the leaf insertion (`n0` to `n1`) and the fringe insertion (`n1`
      to `n2`), the node reached by the leaf insertion is a leaf exactly when
      the leaf insertion created it: every older node but the root is fringe. */
  lemma LeafIffNew<K>(n0: seq<Node<K>>, n1: seq<Node<K>>, n2: seq<Node<K>>, log: seq<Instance<K>>,
                      ps: seq<nat>, r: nat)
    requires AllFringe(n0) && ps != []
    requires Inserted(n0, n1, log, 0, ps, r, false)
    requires Extends(n1, n2) && FlagsKept(n1, n2) && ChildrenInRange(n2)
    requires forall j :: |n1| <= j < |n2| ==> n2[j].isFringe
    ensures IsLeaf(n2, r) <==> |n1| > |n0|
  {
    assert Kept(n1[r], n2[r], |n1|);
    if |n1| > |n0| {
      assert !n1[r].isFringe;
      forall k | k in n2[r].children ensures n2[n2[r].children[k]].isFringe {
        assert k !in n1[r].children;
      }
    } else {
      assert r != 0 by {
        assert n1[r].kind.ObservationNode? && n1[0].kind.Root?;
      }
      assert n0[r].isFringe;
    }
  }

  /** After the whole insertion every node but the root is fringe: old nodes
      already were, `_insert` only leaves non-fringe new nodes on the path of
      a new leaf, and `_correct_fringe` marks that path. */
  lemma FringeAfter<K>(n0: seq<Node<K>>, n2: seq<Node<K>>, n3: seq<Node<K>>, r: nat, leaf: bool)
    requires 0 < |n0| <= |n2| == |n3| && FlagsKept(n0, n2)
    requires AllFringe(n0) && !n0[0].isFringe
    requires forall j :: |n0| <= j < |n2| && !n2[j].isFringe ==> |n0| <= r && j in Chain(n2, r)
    requires leaf <==> |n0| <= r
    requires leaf ==> forall i :: 0 <= i < |n2| ==> n3[i] == n2[i].(isFringe := n2[i].isFringe || i in Chain(n2, r))
    requires !leaf ==> n3 == n2
    ensures AllFringe(n3) && !n3[0].isFringe
  {
    ChainBounds(n2, r);
    forall i | 0 < i < |n3| ensures n3[i].isFringe {
      if i < |n0| {
        assert n0[i].isFringe;
      }
    }
  }

  /** Node kinds are kept when the trie is extended, so states stay states. */
  lemma NodeOfKept<K>(before: seq<Node<K>>, after: seq<Node<K>>, nodeOf: seq<nat>)
    requires Extends(before, after) && forall c :: 0 <= c < |nodeOf| ==> IsState(before, nodeOf[c])
    ensures forall c :: 0 <= c < |nodeOf| ==> IsState(after, nodeOf[c])
  {
    forall c | 0 <= c < |nodeOf| ensures IsState(after, nodeOf[c]) {
      assert Kept(before[nodeOf[c]], after[nodeOf[c]], |before|);
    }
  }

  /** The fringe test of a state depends only on its first instance, which
      an extension keeps. */
  lemma FringeMatchKept<K>(before: seq<Node<K>>, after: seq<Node<K>>, log: seq<Instance<K>>,
                           states: set<nat>, depth: nat, lo: nat)
    requires Extends(before, after)
    ensures forall s :: s in states && FringeMatch(before, log, depth, s, lo) ==> FringeMatch(after, log, depth, s, lo)
  {
    forall s | s in states && FringeMatch(before, log, depth, s, lo) ensures FringeMatch(after, log, depth, s, lo) {
      assert Kept(before[s], after[s], |before|);
    }
  }

  /** The invariant of the memory: a well-formed trie whose nodes but the
      root are all fringe (`_correct_fringe` marks the whole path of every
      registered state), every instance assigned to an observation node,
      every registered state an observation node, and no instance twice in
      the log. */
  ghost predicate Shaped<K>(nodes: seq<Node<K>>, log: seq<Instance<K>>, nodeOf: seq<nat>, states: set<nat>)
  {
    && WF(nodes, log)
    && !nodes[0].isFringe
    && AllFringe(nodes)
    && |nodeOf| == |log|
    && (forall c :: 0 <= c < |nodeOf| ==> IsState(nodes, nodeOf[c]))
    && (forall s :: s in states ==> IsState(nodes, s))
    && (forall i, j :: 0 <= i < j < |log| ==> log[i] != log[j])
  }

  /** Below every state of `states` whose first instances in `before`
      matched the window starting at `lo`, the positions `post` can be
      followed in `after`. */
  ghost predicate PostSuffixBelow<K>(before: seq<Node<K>>, after: seq<Node<K>>, log: seq<Instance<K>>,
                                     states: set<nat>, depth: nat, lo: nat, post: seq<nat>)
  {
    forall s :: s in states && FringeMatch(before, log, depth, s, lo) ==> Walk(after, log, s, post).Some?
  }

  /** The first log position of `instances[-window_size:]` over a log of
      `n` instances: the whole log when the window size is 0 or at least `n`. */
  function WindowStart(size: nat, n: nat): (lo: nat)
    ensures lo <= n
    ensures n - lo == if size == 0 then n else Min(size, n)
  {
    if size == 0 || n <= size then 0 else n - size
  }

  /** The positions `_insert` follows from the root: the window, most recent first. */
  function LeafPath(size: nat, n: nat): seq<nat>
  {
    Recent(WindowStart(size, n), n)
  }

  /** The positions `_insert` follows below each matching state: the
      window's instances after its first `depth` ones, oldest first. */
  function PostSuffix(size: nat, depth: nat, n: nat): seq<nat>
  {
    var lo := WindowStart(size, n);
    Span(Min(lo + depth, n), n)
  }

  /** Every node of `n` that `n0` did not have lies on the path `path` up
      from the root to `r`, or on the post-suffix path below a state of
      `states` that matched, holding the instance of the round of that path
      that created it. */
  ghost predicate Confined<K>(n0: seq<Node<K>>, n: seq<Node<K>>, log: seq<Instance<K>>, states: set<nat>,
                              depth: nat, lo: nat, path: seq<nat>, post: seq<nat>, r: nat)
  {
    forall j :: |n0| <= j < |n| ==>
      (j in Chain(n, r) && HoldsRound(n, 0, path, j)) || BelowMatch(n0, n, log, states, depth, lo, post, j)
  }

  /** Changing only fringe flags keeps `Confined`. */
  lemma ConfinedKept<K>(n0: seq<Node<K>>, n: seq<Node<K>>, n': seq<Node<K>>, log: seq<Instance<K>>, states: set<nat>,
                        depth: nat, lo: nat, path: seq<nat>, post: seq<nat>, r: nat)
    requires Confined(n0, n, log, states, depth, lo, path, post, r)
    requires Extends(n, n') && |n'| == |n| && r < |n|
    ensures Confined(n0, n', log, states, depth, lo, path, post, r)
  {
    ChainExtends(n, n', r);
    forall j | |n0| <= j < |n'|
      ensures (j in Chain(n', r) && HoldsRound(n', 0, path, j)) || BelowMatch(n0, n', log, states, depth, lo, post, j)
    {
      if j in Chain(n, r) && HoldsRound(n, 0, path, j) {
        HoldsRoundKept(n, n', 0, path, j);
      } else {
        var t :| t in states && FringeMatch(n0, log, depth, t, lo) && OnPostPath(n, log, t, post, j);
        PostPathKept(n, n', log, t, post, j);
      }
    }
  }

  /** Where an insertion into the trie `n0` leaves the trie `n`: `n` only
      grew from `n0`, the leaf path of the window over `log` leads from the
      root to `r`, at twice the window's length below the root, the
      post-suffix hangs below every state of `states` whose first instance in
      `n0` matched the window's first `depth` instances, and every new node
      lies on one of these paths, holding the instance of the round that
      created it. */
  ghost predicate Reached<K>(n0: seq<Node<K>>, n: seq<Node<K>>, log: seq<Instance<K>>, states: set<nat>,
                             size: nat, depth: nat, r: nat)
  {
    && Extends(n0, n)
    && Walk(n, log, 0, LeafPath(size, |log|)) == Some(r)
    && Depth(n, r) == 2 * (|log| - WindowStart(size, |log|))
    && PostSuffixBelow(n0, n, log, states, depth, WindowStart(size, |log|), PostSuffix(size, depth, |log|))
    && Confined(n0, n, log, states, depth, WindowStart(size, |log|), LeafPath(size, |log|), PostSuffix(size, depth, |log|), r)
  }

  /** What `_insert` achieves besides `Reached`: no flag was cleared, `r`
      is an observation node that is a leaf exactly when it is new, and a new
      node that is not fringe lies on the path of a new `r`. */
  ghost predicate WindowInserted<K>(n0: seq<Node<K>>, n: seq<Node<K>>, log: seq<Instance<K>>, states: set<nat>,
                                    size: nat, depth: nat, r: nat)
  {
    && Reached(n0, n, log, states, size, depth, r)
    && FlagsKept(n0, n) && ChildrenInRange(n) && IsState(n, r)
    && (IsLeaf(n, r) <==> |n0| <= r)
    && (forall j :: |n0| <= j < |n| && !n[j].isFringe ==> |n0| <= r && j in Chain(n, r))
  }

  /** `_insert` from `n0` through the leaf insertion (to `n1`) and the
      fringe insertion (to `n2`) establishes `WindowInserted`. */
  lemma WindowFacts<K>(n0: seq<Node<K>>, n1: seq<Node<K>>, n2: seq<Node<K>>, log: seq<Instance<K>>,
                       states: set<nat>, size: nat, depth: nat, r: nat)
    requires AllFringe(n0) && 0 < |log| && forall s :: s in states ==> IsState(n0, s)
    requires Inserted(n0, n1, log, 0, LeafPath(size, |log|), r, false)
    requires FringeInserted(n1, n2, log, states, states, depth, WindowStart(size, |log|), PostSuffix(size, depth, |log|))
    ensures WindowInserted(n0, n2, log, states, size, depth, r)
  {
    var ps := LeafPath(size, |log|);
    ExtendsTrans(n0, n1, n2);
    FlagsKeptTrans(n0, n1, n2);
    WFChildrenInRange(n2, log);
    LeafIffNew(n0, n1, n2, log, ps, r);
    assert Kept(n1[r], n2[r], |n1|);
    ChainExtends(n1, n2, r);
    WalkExtends(n1, n2, log, log, 0, ps);
    FringeMatchKept(n0, n1, log, states, depth, WindowStart(size, |log|));
    WindowConfined(n0, n1, n2, log, states, depth, WindowStart(size, |log|), ps, PostSuffix(size, depth, |log|), r);
  }

  /** The leaf insertion's new nodes lie on the path up from `r`, the fringe
      insertion's below the matching states, so `_insert` keeps `Confined`. */
  lemma WindowConfined<K>(n0: seq<Node<K>>, n1: seq<Node<K>>, n2: seq<Node<K>>, log: seq<Instance<K>>,
                          states: set<nat>, depth: nat, lo: nat, path: seq<nat>, post: seq<nat>, r: nat)
    requires Extends(n0, n1) && Extends(n1, n2) && r < |n1|
    requires forall s :: s in states ==> IsState(n0, s)
    requires forall j :: |n0| <= j < |n1| ==> j in Chain(n1, r) && HoldsRound(n1, 0, path, j)
    requires forall j :: |n1| <= j < |n2| ==> BelowMatch(n1, n2, log, states, depth, lo, post, j)
    ensures Confined(n0, n2, log, states, depth, lo, path, post, r)
  {
    ChainExtends(n1, n2, r);
    forall j | |n0| <= j < |n2|
      ensures (j in Chain(n2, r) && HoldsRound(n2, 0, path, j)) || BelowMatch(n0, n2, log, states, depth, lo, post, j)
    {
      if j < |n1| {
        HoldsRoundKept(n1, n2, 0, path, j);
      } else {
        assert BelowMatch(n1, n2, log, states, depth, lo, post, j);
        var t :| t in states && FringeMatch(n1, log, depth, t, lo) && OnPostPath(n2, log, t, post, j);
        assert IsState(n0, t) && Kept(n0[t], n1[t], |n0|);
        assert FringeMatch(n0, log, depth, t, lo);
      }
    }
  }

  /** The whole of `insert` on the trie: `n0` to `n2` is `_insert` over the
      log `log0 + [inst]`, reaching `r`; `n2` to `n3` the marking of `r`'s
      path when `r` is a leaf. The invariant is kept and `Reached` survives
      the marking. */
  lemma InsertFacts<K>(n0: seq<Node<K>>, n2: seq<Node<K>>, n3: seq<Node<K>>,
                       log0: seq<Instance<K>>, inst: Instance<K>, nodeOf0: seq<nat>, states0: set<nat>,
                       size: nat, depth: nat, r: nat, leaf: bool)
    requires Shaped(n0, log0, nodeOf0, states0) && inst !in log0
    requires WindowInserted(n0, n2, log0 + [inst], states0, size, depth, r)
    requires leaf == IsLeaf(n2, r)
    requires WF(n3, log0 + [inst]) && Extends(n2, n3) && |n3| == |n2|
    requires leaf ==> forall i :: 0 <= i < |n2| ==> n3[i] == n2[i].(isFringe := n2[i].isFringe || i in Chain(n2, r))
    requires !leaf ==> n3 == n2
    ensures Shaped(n3, log0 + [inst], nodeOf0 + [r], states0 + (if leaf then {r} else {}))
    ensures Reached(n0, n3, log0 + [inst], states0, size, depth, r)
  {
    ghost var log := log0 + [inst];
    ExtendsTrans(n0, n2, n3);
    FringeAfter(n0, n2, n3, r, leaf);
    NodeOfKept(n0, n3, nodeOf0);
    StatesKept(n0, n3, states0);
    assert IsState(n3, r) by {
      assert Kept(n2[r], n3[r], |n2|);
    }
    forall i, j | 0 <= i < j < |log| ensures log[i] != log[j] {
      if j < |log0| {
        assert log[i] == log0[i] && log[j] == log0[j];
      } else {
        assert log[i] == log0[i] && log[j] == inst;
      }
    }
    if leaf {
      ChainExtends(n2, n3, r);
      WalkExtends(n2, n3, log, log, 0, LeafPath(size, |log|));
      WalksKept(n0, n2, n3, log, states0, depth, WindowStart(size, |log|), PostSuffix(size, depth, |log|));
      ConfinedKept(n0, n2, n3, log, states0, depth, WindowStart(size, |log|), LeafPath(size, |log|),
                   PostSuffix(size, depth, |log|), r);
    }
  }

  /** The invariant gives what `_leaves` and `traverse` need. */
  lemma ShapedTreeOK<K>(nodes: seq<Node<K>>, log: seq<Instance<K>>, nodeOf: seq<nat>, states: set<nat>)
    requires Shaped(nodes, log, nodeOf, states)
    ensures TreeOK(nodes, nodeOf)
    ensures forall k :: k in nodes[0].children ==> nodes[0].children[k] > 0
  {
    WFChildrenInRange(nodes, log);
    forall i, j | 0 <= i < |nodes| && 0 <= j < |nodes[i].instances| ensures nodes[i].instances[j] < |nodeOf| {
      assert i != 0 && NodeOK(nodes, log, i);
    }
    forall k | k in nodes[0].children ensures nodes[0].children[k] > 0 {
      assert ChildOK(nodes, 0, k);
    }
  }

  /** On a memory that keeps its invariant, every node but the root is
      fringe, so the root is a leaf and `traverse` answers the root for any
      non-empty history. */
  lemma ValidTraverse<K>(nodes: seq<Node<K>>, log: seq<Instance<K>>, nodeOf: seq<nat>, states: set<nat>,
                         xs: seq<Instance<K>>)
    requires Shaped(nodes, log, nodeOf, states)
    ensures TreeOK(nodes, nodeOf)
    ensures TraverseFrom(nodes, nodeOf, 0, xs) == if xs == [] then None else Some([0])
  {
    ShapedTreeOK(nodes, log, nodeOf, states);
    TraverseStopsAtRoot(nodes, nodeOf, xs);
  }

  class UtileSuffixMemory<K(==)> {
    /** The trie; node 0 is the root. */
    var nodes: seq<Node<K>>
    /** The log; the successor and predecessor of an instance are its neighbours here. */
    var instances: seq<Instance<K>>
    /** The node assigned to each instance of the log (`set_node`/`get_node`). */
    var nodeOf: seq<nat>
    /** The registered states. */
    var states: set<nat>
    const windowSize: nat
    const fringeDepth: nat
    const gamma: real
    const actionSpace: Option<seq<K>>
    const observationSpace: Option<seq<K>>

    /** Every node but the root is fringe: `_correct_fringe` marks the whole
        path of a newly registered state. */
    ghost predicate Valid()
      reads this
    {
      Shaped(nodes, instances, nodeOf, states) && (windowSize == 0 || fringeDepth <= windowSize)
    }

    constructor (windowSize: nat, fringeDepth: nat, gamma: real,
                 knownActions: Option<seq<K>>, knownObservations: Option<seq<K>>)
      requires windowSize == 0 || fringeDepth <= windowSize
      ensures Valid()
      ensures nodes == [Node(Root, map[], 0, [], false)] && instances == [] && nodeOf == [] && states == {}
      ensures this.windowSize == windowSize && this.fringeDepth == fringeDepth && this.gamma == gamma
      ensures actionSpace == knownActions && observationSpace == knownObservations
    {
      nodes := [Node(Root, map[], 0, [], false)];
      instances := [];
      nodeOf := [];
      states := {};
      this.windowSize := windowSize;
      this.fringeDepth := fringeDepth;
      this.gamma := gamma;
      actionSpace := knownActions;
      observationSpace := knownObservations;
    }

    /** The instance before the one at `c` in the log, if any. */
    function Previous(c: nat): (r: Option<nat>)
      reads this
      ensures r.Some? ==> r.value < c < |instances|
    {
      if 0 < c < |instances| then Some(c - 1) else None
    }

    /** The instance after the one at `c` in the log, if any. */
    function Next(c: nat): (r: Option<nat>)
      reads this
      ensures r.Some? ==> c < r.value < |instances| && Previous(r.value) == Some(c)
      ensures c < |instances| && r.None? ==> c == |instances| - 1
    {
      if c + 1 < |instances| then Some(c + 1) else None
    }

    /** `has_actions`: a TypeError when the actions are unknown. */
    function HasActions(): (r: Result<bool>)
      ensures r.Err? <==> actionSpace.None?
      ensures r == Ok(true) <==> actionSpace.Some? && actionSpace.value != []
    {
      match actionSpace
      case None => Err(TypeError)
      case Some(a) => Ok(0 < |a|)
    }

    /** `has_observations`: a TypeError when the observations are unknown. */
    function HasObservations(): (r: Result<bool>)
      ensures r.Err? <==> observationSpace.None?
      ensures r == Ok(true) <==> observationSpace.Some? && observationSpace.value != []
    {
      match observationSpace
      case None => Err(TypeError)
      case Some(o) => Ok(0 < |o|)
    }

    /** The node under `current` for `kind`'s key, attached fresh (with the
        instance at `p` and the given fringe flag) when the key is absent. */
    method ChildOrAttach(current: nat, kind: Kind<K>, p: nat, fringe: bool) returns (next: nat)
      requires WF(nodes, instances) && current < |nodes| && !kind.Root?
      requires FitsUnder(nodes[current].kind, kind)
      requires p < |instances| && Labelled(kind, instances[p])
      modifies this`nodes
      ensures WF(nodes, instances) && Extends(old(nodes), nodes) && FlagsKept(old(nodes), nodes)
      ensures next < |nodes| && Child(nodes, current, Key(kind)) == Some(next) && nodes[next].kind == kind
      ensures nodes[next].parent == current && Chain(nodes, next) == [next] + Chain(nodes, current)
      ensures Key(kind) in old(nodes[current].children) ==> nodes == old(nodes)
      ensures Key(kind) !in old(nodes[current].children) ==>
        nodes == Attach(old(nodes), current, kind, p, fringe) && next == old(|nodes|)
      ensures Attached(old(nodes), nodes, current, Key(kind), next, p, fringe)
    {
      var key := Key(kind);
      if key in nodes[current].children {
        next := nodes[current].children[key];
        assert ChildOK(nodes, current, key);
        assert NodeOK(nodes, instances, next);
        ChainOfChild(nodes, instances, current, key);
      } else {
        AttachWF(nodes, instances, current, kind, p, fringe);
        ghost var before := nodes;
        nodes := Attach(nodes, current, kind, p, fringe);
        next := |nodes| - 1;
        ChainExtends(before, nodes, current);
      }
    }

    /** One round of `_insert_instances`: the action node of the instance at
        `p` under `current`, then its observation node, each followed or created. */
    method InsertStep(current: nat, p: nat, fringe: bool) returns (next: nat)
      requires WF(nodes, instances) && current < |nodes|
      requires current == 0 || nodes[current].kind.ObservationNode?
      requires p < |instances|
      modifies this`nodes
      ensures WF(nodes, instances) && Extends(old(nodes), nodes) && FlagsKept(old(nodes), nodes)
      ensures next < |nodes| && nodes[next].kind.ObservationNode?
      ensures Step(nodes, current, instances[p]) == Some(next)
      ensures Chain(nodes, next) == [next, nodes[next].parent] + Chain(old(nodes), current)
      ensures forall j :: old(|nodes|) <= j < |nodes| ==> nodes[j].isFringe == fringe && j in Chain(nodes, next)
      ensures forall j :: old(|nodes|) <= j < |nodes| ==>
        nodes[j].instances == [p] && Depth(old(nodes), current) < Depth(nodes, j) <= Depth(old(nodes), current) + 2
      ensures |nodes| > old(|nodes|) ==> next == |nodes| - 1 && nodes[next].children == map[]
      ensures old(nodes[current].children) == map[] ==> |nodes| > old(|nodes|)
    {
      var inst := instances[p];
      ghost var n0 := nodes;
      var an := ChildOrAttach(current, ActionNode(inst.action), p, fringe);
      ghost var n1 := nodes;
      next := ChildOrAttach(an, ObservationNode(inst.observation), p, fringe);
      StepFacts(n0, n1, nodes, current, an, next, inst, p, fringe);
    }

    /** A round of `_insert_instances` keeps what the earlier rounds achieved. */
    method InsertRound(ghost orig: seq<Node<K>>, ghost start: nat, ghost ps: seq<nat>, r: nat, p: nat, fringe: bool)
      returns (next: nat)
      requires Inserted(orig, nodes, instances, start, ps, r, fringe)
      requires r == 0 || nodes[r].kind.ObservationNode?
      requires p < |instances|
      modifies this`nodes
      ensures Inserted(orig, nodes, instances, start, ps + [p], next, fringe)
      ensures nodes[next].kind.ObservationNode?
    {
      ghost var n0 := nodes;
      next := InsertStep(r, p, fringe);
      InsertedStep(orig, n0, nodes, instances, start, ps, r, p, next, fringe);
    }

    /** `_insert_instances`: from `start`, follow or create the action node and
        then the observation node of each instance at positions `ps`; only
        created nodes get the instance and the fringe flag. */
    method InsertInstances(start: nat, ps: seq<nat>, fringe: bool) returns (r: nat)
      requires WF(nodes, instances) && start < |nodes|
      requires start == 0 || nodes[start].kind.ObservationNode?
      requires forall j :: 0 <= j < |ps| ==> ps[j] < |instances|
      modifies this`nodes
      ensures Inserted(old(nodes), nodes, instances, start, ps, r, fringe)
    {
      r := start;
      InsertedStart(nodes, instances, start, fringe);
      for idx := 0 to |ps|
        invariant Inserted(old(nodes), nodes, instances, start, ps[..idx], r, fringe)
        invariant r == 0 || nodes[r].kind.ObservationNode?
      {
        var next := InsertRound(old(nodes), start, ps[..idx], r, ps[idx], fringe);
        assert ps[..idx + 1] == ps[..idx] + [ps[idx]];
        r := next;
      }
      assert ps[..|ps|] == ps;
    }

    /** The matching loop of `_insert_fringe`: walk back from the instance at
        `c` through its predecessors while they agree with the window. */
    method MatchesHistory(c: nat, lo: nat) returns (equal: bool)
      requires c < |instances| && lo <= |instances|
      requires Min(fringeDepth, c + 1) <= |instances| - lo
      ensures equal == Matches(instances, c, lo, fringeDepth)
    {
      var count := 0;
      var at: int := c;
      equal := true;
      while equal && at >= 0 && count < fringeDepth
        invariant 0 <= count <= fringeDepth && count <= c + 1
        invariant at == c - count
        invariant equal == (forall t :: 0 <= t < count ==> AgreesAt(instances, c, lo, t))
      {
        equal := instances[at].EqlI(instances[lo + count]);
        assert equal == AgreesAt(instances, c, lo, count);
        at := at - 1;
        count := count + 1;
      }
    }

    /** One state of `_insert_fringe`: pick an unvisited state and visit it. */
    method FringeRound(ghost orig: seq<Node<K>>, ghost done: set<nat>, remaining: set<nat>, lo: nat, post: seq<nat>)
      returns (remaining': set<nat>, ghost done': set<nat>)
      requires remaining != {} && remaining <= states && done == states - remaining
      requires FringeInserted(orig, nodes, instances, states, done, fringeDepth, lo, post)
      requires forall s :: s in states ==> IsState(orig, s)
      requires lo == WindowStart(windowSize, |instances|) && (windowSize == 0 || fringeDepth <= windowSize)
      requires forall j :: 0 <= j < |post| ==> post[j] < |instances|
      modifies this`nodes
      ensures remaining' < remaining && done' == states - remaining'
      ensures FringeInserted(orig, nodes, instances, states, done', fringeDepth, lo, post)
    {
      var s :| s in remaining;
      FringeVisit(orig, done, s, lo, post);
      remaining' := remaining - {s};
      done' := done + {s};
      Visited(states, remaining, done, s);
    }

    /** The visit of state `s`: test it against the window and, when it
        matches, insert the post-suffix `post` below it as fringe nodes. */
    method FringeVisit(ghost orig: seq<Node<K>>, ghost done: set<nat>, s: nat, lo: nat, post: seq<nat>)
      requires FringeInserted(orig, nodes, instances, states, done, fringeDepth, lo, post)
      requires s in states && IsState(orig, s)
      requires lo == WindowStart(windowSize, |instances|) && (windowSize == 0 || fringeDepth <= windowSize)
      requires forall j :: 0 <= j < |post| ==> post[j] < |instances|
      modifies this`nodes
      ensures FringeInserted(orig, nodes, instances, states, done + {s}, fringeDepth, lo, post)
      ensures !FringeMatch(orig, instances, fringeDepth, s, lo) ==> nodes == old(nodes)
      ensures FringeMatch(orig, instances, fringeDepth, s, lo) ==>
        Walk(nodes, instances, s, post).Some?
        && forall j :: old(|nodes|) <= j < |nodes| ==> OnPostPath(nodes, instances, s, post, j)
    {
      assert IsState(nodes, s) && NodeOK(nodes, instances, s);
      var c := nodes[s].instances[0];
      assert Kept(orig[s], nodes[s], |orig|);
      var equal := MatchesHistory(c, lo);
      assert equal == FringeMatch(orig, instances, fringeDepth, s, lo);
      if equal {
        FringeExtend(orig, done, s, lo, post);
      } else {
        FringeSkipped(orig, nodes, instances, states, done, fringeDepth, lo, post, s);
      }
    }

    /** Insert the post-suffix `post` below the matching state `s`. */
    method FringeExtend(ghost orig: seq<Node<K>>, ghost done: set<nat>, s: nat, lo: nat, post: seq<nat>)
      requires FringeInserted(orig, nodes, instances, states, done, fringeDepth, lo, post)
      requires s in states && FringeMatch(orig, instances, fringeDepth, s, lo)
      requires forall j :: 0 <= j < |post| ==> post[j] < |instances|
      modifies this`nodes
      ensures FringeInserted(orig, nodes, instances, states, done + {s}, fringeDepth, lo, post)
      ensures Walk(nodes, instances, s, post).Some?
      ensures forall j :: old(|nodes|) <= j < |nodes| ==> OnPostPath(nodes, instances, s, post, j)
    {
      ghost var before := nodes;
      var r := InsertInstances(s, post, true);
      FringeExtended(orig, before, nodes, instances, states, done, fringeDepth, lo, post, s, r);
    }

    /** `_insert_fringe`: below every registered state that matches the
        window, insert the window's instances after the first `fringe_depth`,
        oldest first, as fringe nodes. States are visited in any order. */
    method InsertFringe(lo: nat)
      requires WF(nodes, instances) && lo < |instances| && lo == WindowStart(windowSize, |instances|)
      requires windowSize == 0 || fringeDepth <= windowSize
      requires forall s :: s in states ==> IsState(nodes, s)
      modifies this`nodes
      ensures FringeInserted(old(nodes), nodes, instances, states, states, fringeDepth, lo,
                             PostSuffix(windowSize, fringeDepth, |instances|))
    {
      var post := PostSuffix(windowSize, fringeDepth, |instances|);
      var remaining := states;
      ghost var done: set<nat> := {};
      FringeInsertedStart(nodes, instances, states, fringeDepth, lo, post);
      while remaining != {}
        invariant remaining <= states && done == states - remaining
        invariant FringeInserted(old(nodes), nodes, instances, states, done, fringeDepth, lo, post)
        decreases remaining
      {
        remaining, done := FringeRound(old(nodes), done, remaining, lo, post);
      }
      assert done == states;
    }

    /** `_correct_fringe`: marks the node and all its ancestors but the root
        as fringe. The node must not be fringe yet (an AssertionError otherwise). */
    method CorrectFringe(node: nat)
      requires WF(nodes, instances) && node < |nodes| && !nodes[node].isFringe
      modifies this`nodes
      ensures WF(nodes, instances) && Extends(old(nodes), nodes) && |nodes| == old(|nodes|)
      ensures forall i :: 0 <= i < |nodes| ==>
        nodes[i] == old(nodes[i]).(isFringe := old(nodes[i]).isFringe || i in Chain(old(nodes), node))
    {
      var current: nat := node;
      while current != 0
        invariant current < |nodes| && |nodes| == |old(nodes)|
        invariant forall j :: j in Chain(old(nodes), current) ==> j in Chain(old(nodes), node)
        invariant forall i :: 0 <= i < |nodes| ==>
          nodes[i] == old(nodes[i]).(isFringe := old(nodes[i]).isFringe
                                     || (i in Chain(old(nodes), node) && i !in Chain(old(nodes), current)))
        decreases current
      {
        assert NodeOK(old(nodes), instances, current);
        var parent := nodes[current].parent;
        ChainBounds(old(nodes), parent);
        assert Chain(old(nodes), current) == [current] + Chain(old(nodes), parent);
        nodes := nodes[current := nodes[current].(isFringe := true)];
        current := parent;
      }
      FlagsOnly(old(nodes), nodes, instances);
    }

    /** `_insert`: insert the window ending with the newest instance as a
        leaf path from the root, most recent first, then its post-suffix below
        every matching state; returns the node the leaf path reaches. */
    method InsertWindow() returns (leaf: nat)
      requires WF(nodes, instances) && 0 < |instances| && AllFringe(nodes)
      requires windowSize == 0 || fringeDepth <= windowSize
      requires forall s :: s in states ==> IsState(nodes, s)
      modifies this`nodes
      ensures WF(nodes, instances)
      ensures WindowInserted(old(nodes), nodes, instances, states, windowSize, fringeDepth, leaf)
    {
      var n := |instances|;
      var lo := WindowStart(windowSize, n);
      ghost var n0 := nodes;
      leaf := InsertInstances(0, LeafPath(windowSize, n), false);
      ghost var n1 := nodes;
      StatesKept(n0, n1, states);
      InsertFringe(lo);
      WindowFacts(n0, n1, nodes, instances, states, windowSize, fringeDepth, leaf);
    }

    /** `insert`: append a new instance to the log, run `_insert`, and
        register the reached node as a state, marking its path fringe, when it
        is a leaf. Re-inserting an instance of the log is a ValueError. */
    method Insert(inst: Instance<K>) returns (r: Result<nat>)
      requires Valid()
      modifies this
      ensures Valid()
      ensures inst in old(instances) ==>
        r == Err(ValueError) && nodes == old(nodes) && instances == old(instances)
        && nodeOf == old(nodeOf) && states == old(states)
      ensures inst !in old(instances) ==>
        && r.Ok?
        && instances == old(instances) + [inst]
        && nodeOf == old(nodeOf) + [r.value]
        && Reached(old(nodes), nodes, instances, old(states), windowSize, fringeDepth, r.value)
        && states == old(states) + (if old(|nodes|) <= r.value then {r.value} else {})
    {
      if inst in instances {
        return Err(ValueError);
      }
      WFLogGrows(nodes, instances, instances + [inst]);
      instances := instances + [inst];
      var state := InsertWindow();
      ghost var n2 := nodes;
      var leaf := IsLeaf(nodes, state);
      if leaf {
        states := states + {state};
        CorrectFringe(state);
      }
      nodeOf := nodeOf + [state];
      r := Ok(state);
      InsertFacts(old(nodes), n2, nodes, old(instances), inst, old(nodeOf), old(states),
                  windowSize, fringeDepth, state, leaf);
    }
    /** `_tau`: the instances of the action nodes for `a` on the path from
        `state` up to the root, nearest first. */
    method Tau(state: nat, a: K) returns (r: seq<nat>)
      requires WF(nodes, instances) && state < |nodes|
      ensures r == UsmTree.Tau(nodes, state, a)
      ensures forall c :: c in r ==> c < |instances|
    {
      TauInLog(nodes, instances, state, a);
      r := [];
      var current: nat := state;
      while current != 0
        invariant current < |nodes|
        invariant r + UsmTree.Tau(nodes, current, a) == UsmTree.Tau(nodes, state, a)
        decreases current
      {
        assert NodeOK(nodes, instances, current);
        if nodes[current].kind == ActionNode(a) {
          r := r + nodes[current].instances;
        }
        current := nodes[current].parent;
      }
    }

    /** `pr(s1, s2, a)`: the share of `_tau(s1, a)` assigned to `s2`, or one
        over the number of states when `_tau` is empty. */
    method Pr(s1: nat, s2: nat, a: K) returns (r: Result<real>)
      requires WF(nodes, instances) && |nodeOf| == |instances| && s1 < |nodes|
      ensures r == UsmTree.Pr(nodes, nodeOf, |states|, s1, s2, a)
    {
      var tau := Tau(s1, a);
      if |tau| == 0 {
        if |states| == 0 {
          return Err(ZeroDivisionError);
        }
        return Ok(1.0 / |states| as real);
      }
      var total := 0.0;
      var k := 0;
      while k < |tau|
        invariant k <= |tau|
        invariant total == CountAssigned(nodeOf, tau[..k], s2) as real
      {
        assert tau[..k + 1][..k] == tau[..k] && tau[k] in tau;
        if nodeOf[tau[k]] == s2 {
          total := total + 1.0;
        }
        k := k + 1;
      }
      assert tau[..k] == tau;
      return Ok(total / |tau| as real);
    }

    /** `observation_fn(state, a, o)`: counts, over the whole log, the
        instances of `a` assigned to `state` and those of them that observed
        `o`. */
    method ObservationFn(state: nat, a: K, o: K) returns (r: Result<real>)
      requires |nodeOf| == |instances|
      ensures r == UsmTree.ObservationFn(instances, nodeOf, observationSpace, state, a, o)
    {
      if |instances| == 0 {
        return Err(ValueError);
      }
      var count := 0.0;
      var observed := 0.0;
      var k := 0;
      while k < |instances|
        invariant k <= |instances|
        invariant observed == ObservedCount(instances, nodeOf, state, a, k) as real
        invariant count == SeenCount(instances, nodeOf, state, a, o, k) as real
      {
        if a == instances[k].action && nodeOf[k] == state {
          observed := observed + 1.0;
          if instances[k].observation == o {
            count := count + 1.0;
          }
        }
        k := k + 1;
      }
      if observed == 0.0 {
        match observationSpace
        case None => return Err(TypeError);
        case Some(os) =>
          if |os| == 0 {
            return Err(ZeroDivisionError);
          }
          return Ok(1.0 / |os| as real);
      }
      return Ok(count / observed);
    }

    /** `traverse`: walk the instances `xs` down from the root, one action
        and one observation per instance (see `ValidTraverse` for what this
        gives on a valid memory). */
    method Traverse(xs: seq<Instance<K>>) returns (r: Option<seq<nat>>)
      requires TreeOK(nodes, nodeOf) && 0 < |nodes|
      ensures r == TraverseFrom(nodes, nodeOf, 0, xs)
    {
      var current: nat := 0;
      var k := 0;
      while k < |xs|
        invariant k <= |xs| && current < |nodes|
        invariant TraverseFrom(nodes, nodeOf, current, xs[k..]) == TraverseFrom(nodes, nodeOf, 0, xs)
      {
        if nodes[current].isFringe {
          r := Some([nodes[current].parent]);
          break;
        }
        if IsLeaf(nodes, current) {
          r := Some([current]);
          break;
        }
        if xs[k].action !in nodes[current].children {
          r := Some(Leaves(nodes, nodeOf, nodes[current].instances));
          break;
        }
        current := nodes[current].children[xs[k].action];
        if xs[k].observation !in nodes[current].children {
          r := Some(Leaves(nodes, nodeOf, nodes[current].instances));
          break;
        }
        current := nodes[current].children[xs[k].observation];
        k := k + 1;
      }
      if k == |xs| {
        r := None;
      }
    }
  }
}
