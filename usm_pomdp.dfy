/** The POMDP view of a Utile Suffix Memory (pcog/usm_pomdp.py): the dense
    transition table built from `pr`, and the constant belief. */
module UsmPomdp {
  import opened Wrappers
  import opened UsmTree
  import opened Usm

  /** The row `transitions[i][j]` of the table for the source state `s1` and
      action `a`, over the targets in enumeration order: `pr(s1, t, a)` for
      every target `t` but `s1` itself, whose entry keeps its initial 0. */
  function Row<K(==)>(nodes: seq<Node<K>>, nodeOf: seq<nat>, stateCount: nat, s1: nat, targets: seq<nat>, a: K)
    : (row: seq<real>)
    ensures |row| == |targets|
    ensures forall k :: 0 <= k < |targets| ==>
      row[k] == if targets[k] == s1 then 0.0 else PrValue(nodes, nodeOf, stateCount, s1, targets[k], a)
    decreases |targets|
  {
    if targets == [] then []
    else
      var t := targets[|targets| - 1];
      Row(nodes, nodeOf, stateCount, s1, targets[..|targets| - 1], a)
        + [if t == s1 then 0.0 else PrValue(nodes, nodeOf, stateCount, s1, t, a)]
  }

  function Sum(xs: seq<real>): real
    decreases |xs|
  {
    if xs == [] then 0.0 else Sum(xs[..|xs| - 1]) + xs[|xs| - 1]
  }

  /** A row adds up to the off-diagonal total of `pr`. */
  lemma {:induction false} RowSum<K>(nodes: seq<Node<K>>, nodeOf: seq<nat>, stateCount: nat, s1: nat, targets: seq<nat>, a: K)
    ensures Sum(Row(nodes, nodeOf, stateCount, s1, targets, a)) == OffDiagonalTotal(nodes, nodeOf, stateCount, s1, targets, a)
    decreases |targets|
  {
    if targets != [] {
      var row := Row(nodes, nodeOf, stateCount, s1, targets, a);
      var init := targets[..|targets| - 1];
      RowSum(nodes, nodeOf, stateCount, s1, init, a);
      assert row[..|row| - 1] == Row(nodes, nodeOf, stateCount, s1, init, a);
    }
  }

  /** Over distinct targets, no more of them than there are states, every
      entry of a row lies in [0, 1] and so does the row's total; without
      `_tau` evidence for `s1` every off-diagonal entry is 1/|states|. */
  lemma RowBounds<K>(nodes: seq<Node<K>>, nodeOf: seq<nat>, stateCount: nat, s1: nat, targets: seq<nat>, a: K)
    requires Distinct(targets) && |targets| <= stateCount
    ensures forall k :: 0 <= k < |targets| ==> 0.0 <= Row(nodes, nodeOf, stateCount, s1, targets, a)[k] <= 1.0
    ensures 0.0 <= Sum(Row(nodes, nodeOf, stateCount, s1, targets, a)) <= 1.0
    ensures |Tau(nodes, s1, a)| == 0 ==> forall k :: 0 <= k < |targets| && targets[k] != s1 ==>
      Row(nodes, nodeOf, stateCount, s1, targets, a)[k] == 1.0 / stateCount as real
  {
    RowSum(nodes, nodeOf, stateCount, s1, targets, a);
    PrRowTotal(nodes, nodeOf, stateCount, s1, targets, a);
  }

  /** The states in the order a `for` over the set visits them: each once. */
  method Enumerate(states: set<nat>) returns (order: seq<nat>)
    ensures |order| == |states| && Distinct(order)
    ensures forall s :: s in states <==> s in order
  {
    order := [];
    var remaining := states;
    while remaining != {}
      invariant remaining <= states && Distinct(order)
      invariant forall s :: s in states <==> s in order || s in remaining
      invariant forall s :: s in order ==> s !in remaining
      invariant |order| + |remaining| == |states|
      decreases remaining
    {
      var s :| s in remaining;
      order := order + [s];
      remaining := remaining - {s};
    }
  }

  /** The table holds the rows of the states before `(i, j)` in loop order,
      and 0 elsewhere. */
  ghost predicate FilledUpTo<K>(t: array3<real>, nodes: seq<Node<K>>, nodeOf: seq<nat>, stateCount: nat,
                                order: seq<nat>, actions: seq<K>, i: nat, j: nat)
    reads t
    requires t.Length0 == |order| && t.Length1 == |actions| && t.Length2 == |order|
  {
    forall i', j', k :: 0 <= i' < |order| && 0 <= j' < |actions| && 0 <= k < |order| ==>
      t[i', j', k] == if i' < i || (i' == i && j' < j) then Row(nodes, nodeOf, stateCount, order[i'], order, actions[j'])[k]
                      else 0.0
  }

  /** `transition_function`: a ValueError unless the memory knows a
      non-empty action space (a TypeError when it knows none); otherwise the
      |states| x |actions| x |states| table, indexed by the enumeration order
      of the states, whose entry `[i][j][k]` is `pr(order[i], order[k], a_j)`
      off the diagonal and 0 on it. */
  method TransitionFunction<K(==)>(usm: UtileSuffixMemory<K>) returns (r: Result<array3<real>>, order: seq<nat>)
    requires usm.Valid()
    ensures usm.actionSpace.None? ==> r == Err(TypeError)
    ensures usm.actionSpace == Some([]) ==> r == Err(ValueError)
    ensures usm.actionSpace.Some? && usm.actionSpace.value != [] ==>
      && r.Ok? && fresh(r.value)
      && |order| == |usm.states| && Distinct(order) && (forall s :: s in usm.states <==> s in order)
      && r.value.Length0 == |order| && r.value.Length1 == |usm.actionSpace.value| && r.value.Length2 == |order|
      && forall i, j, k :: 0 <= i < |order| && 0 <= j < |usm.actionSpace.value| && 0 <= k < |order| ==>
           r.value[i, j, k] == Row(usm.nodes, usm.nodeOf, |usm.states|, order[i], order, usm.actionSpace.value[j])[k]
  {
    order := [];
    var has := usm.HasActions();
    if has.Err? {
      return Err(has.error), order;
    }
    if !has.value {
      return Err(ValueError), order;
    }
    var actions := usm.actionSpace.value;
    order := Enumerate(usm.states);
    var t := new real[|order|, |actions|, |order|]((_, _, _) => 0.0);
    var i := 0;
    while i < |order|
      invariant i <= |order|
      invariant FilledUpTo(t, usm.nodes, usm.nodeOf, |usm.states|, order, actions, i, 0)
    {
      var j := 0;
      while j < |actions|
        invariant j <= |actions|
        invariant FilledUpTo(t, usm.nodes, usm.nodeOf, |usm.states|, order, actions, i, j)
      {
        FillRow(usm, t, order, actions, i, j);
        j := j + 1;
      }
      i := i + 1;
    }
    return Ok(t), order;
  }

  /** The innermost loop of `transition_function`: `transitions[i][j][k] =
      pr(s1, s2, a_j)` for every target `s2` that is not `s1` itself. */
  method FillRow<K(==)>(usm: UtileSuffixMemory<K>, t: array3<real>, order: seq<nat>, actions: seq<K>, i: nat, j: nat)
    requires usm.Valid() && |order| == |usm.states| && (forall s :: s in usm.states <==> s in order)
    requires t.Length0 == |order| && t.Length1 == |actions| && t.Length2 == |order|
    requires i < |order| && j < |actions|
    requires FilledUpTo(t, usm.nodes, usm.nodeOf, |usm.states|, order, actions, i, j)
    modifies t
    ensures FilledUpTo(t, usm.nodes, usm.nodeOf, |usm.states|, order, actions, i, j + 1)
  {
    var s1 := order[i];
    assert s1 in usm.states && IsState(usm.nodes, s1);
    var k := 0;
    while k < |order|
      invariant k <= |order|
      invariant forall i', j', k' :: 0 <= i' < |order| && 0 <= j' < |actions| && 0 <= k' < |order| ==>
        t[i', j', k'] == if i' < i || (i' == i && j' < j) || (i' == i && j' == j && k' < k) then
                           Row(usm.nodes, usm.nodeOf, |usm.states|, order[i'], order, actions[j'])[k']
                         else 0.0
    {
      if s1 != order[k] {
        var p := usm.Pr(s1, order[k], actions[j]);
        t[i, j, k] := p.value;
      }
      k := k + 1;
    }
  }

  /** `belief_state`: the constant 1.0, whatever the memory holds. */
  function BeliefState<K>(usm: UtileSuffixMemory<K>): (b: real)
    ensures b == 1.0
  {
    1.0
  }
}
