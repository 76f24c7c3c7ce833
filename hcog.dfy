/** The hybrid agent's builder and its Cartesian-product state space (pcog/hcog.py). */
module Hcog {
  import opened Wrappers

  /** A named attribute and the values it may take. */
  class Attrib<T> {
    const identifier: string
    var allowedValues: seq<T>

    constructor (identifier: string, allowedValues: seq<T>)
      ensures this.identifier == identifier && this.allowedValues == allowedValues
    {
      this.identifier := identifier;
      this.allowedValues := allowedValues;
    }
  }

  /** Copies of `state`, each with one more value appended, in value order. */
  function ExtendOne<V>(state: seq<V>, values: seq<V>): (r: seq<seq<V>>)
    ensures |r| == |values|
    ensures forall j :: 0 <= j < |values| ==> r[j] == state + [values[j]]
  {
    seq(|values|, j requires 0 <= j < |values| => state + [values[j]])
  }

  /** Every state extended by every value: state-major, then value order. */
  function Extend<V>(states: seq<seq<V>>, values: seq<V>): (r: seq<seq<V>>)
    decreases |states|
  {
    if states == [] then []
    else Extend(states[..|states| - 1], values) + ExtendOne(states[|states| - 1], values)
  }

  /** The product of the starting states with the values of each later attribute in turn. */
  function Product<V>(states: seq<seq<V>>, rest: seq<seq<V>>): seq<seq<V>>
    decreases |rest|
  {
    if rest == [] then states
    else Extend(Product(states, rest[..|rest| - 1]), rest[|rest| - 1])
  }

  function ProductOfLengths<V>(rest: seq<seq<V>>): nat
    decreases |rest|
  {
    if rest == [] then 1 else ProductOfLengths(rest[..|rest| - 1]) * |rest[|rest| - 1]|
  }

  /** Entry `i * |values| + j` of the extension is state `i` followed by value `j`. */
  lemma {:induction false} ExtendAt<V>(states: seq<seq<V>>, values: seq<V>, i: int, j: int)
    requires 0 <= i < |states| && 0 <= j < |values|
    ensures |Extend(states, values)| == |states| * |values|
    ensures i * |values| + j < |Extend(states, values)|
    ensures Extend(states, values)[i * |values| + j] == states[i] + [values[j]]
    decreases |states|
  {
    var n, v := |states|, |values|;
    var init := states[..n - 1];
    var front := Extend(init, values);
    ExtendLength(init, values);
    ExtendLength(states, values);
    assert Extend(states, values) == front + ExtendOne(states[n - 1], values);
    if i < n - 1 {
      ExtendAt(init, values, i, j);
      assert i * v + j < |front| by {
        MulMono(i + 1, n - 1, v);
        assert (i + 1) * v == i * v + v;
      }
    } else {
      assert i * v + j == |front| + j;
    }
  }

  lemma MulMono(a: nat, b: nat, c: nat)
    requires a <= b
    ensures a * c <= b * c
  {
  }

  lemma {:induction false} ExtendLength<V>(states: seq<seq<V>>, values: seq<V>)
    ensures |Extend(states, values)| == |states| * |values|
    decreases |states|
  {
    if states != [] {
      var n, v := |states|, |values|;
      ExtendLength(states[..n - 1], values);
      assert |Extend(states, values)| == (n - 1) * v + v;
      assert (n - 1) * v + v == n * v;
    }
  }

  /** Extending by one more value appends one more copy. */
  lemma ExtendOneStep<V>(state: seq<V>, values: seq<V>, j: int)
    requires 0 <= j < |values|
    ensures ExtendOne(state, values[..j + 1]) == ExtendOne(state, values[..j]) + [state + [values[j]]]
  {
  }

  /** Extending one more state appends that state's copies. */
  lemma ExtendStep<V>(states: seq<seq<V>>, values: seq<V>, i: int)
    requires 0 <= i < |states|
    ensures Extend(states[..i + 1], values) == Extend(states[..i], values) + ExtendOne(states[i], values)
  {
    assert states[..i + 1][..i] == states[..i];
    assert values[..|values|] == values;
  }

  /** The derived state space has one state per combination: the number of
      starting states times the number of allowed values of every later attribute. */
  lemma {:induction false} ProductSize<V>(states: seq<seq<V>>, rest: seq<seq<V>>)
    ensures |Product(states, rest)| == |states| * ProductOfLengths(rest)
    decreases |rest|
  {
    if rest != [] {
      var init := rest[..|rest| - 1];
      var last := |rest[|rest| - 1]|;
      ProductSize(states, init);
      ExtendLength(Product(states, init), rest[|rest| - 1]);
      calc {
        |Product(states, rest)|;
        |Product(states, init)| * last;
        (|states| * ProductOfLengths(init)) * last;
        { MulAssoc(|states|, ProductOfLengths(init), last); }
        |states| * (ProductOfLengths(init) * last);
      }
    }
  }

  lemma MulAssoc(a: nat, b: nat, c: nat)
    ensures (a * b) * c == a * (b * c)
  {
  }

  /** When one later attribute allows no value, no state is derived. */
  lemma {:induction false} ProductEmpty<V>(states: seq<seq<V>>, rest: seq<seq<V>>, t: int)
    requires 0 <= t < |rest| && rest[t] == []
    ensures Product(states, rest) == []
    decreases |rest|
  {
    var init := rest[..|rest| - 1];
    if t < |rest| - 1 {
      assert init[t] == [];
      ProductEmpty(states, init, t);
    }
    ExtendLength(Product(states, init), rest[|rest| - 1]);
  }

  /** A member of an extension is a state followed by one value. */
  lemma {:induction false} ExtendMember<V>(states: seq<seq<V>>, values: seq<V>, x: seq<V>)
    requires x in Extend(states, values)
    ensures |x| >= 1 && x[..|x| - 1] in states && x[|x| - 1] in values
    decreases |states|
  {
    var init := states[..|states| - 1];
    var last := states[|states| - 1];
    if x in Extend(init, values) {
      ExtendMember(init, values, x);
      assert x[..|x| - 1] in states by {
        var k :| 0 <= k < |init| && init[k] == x[..|x| - 1];
        assert states[k] == init[k];
      }
    } else {
      var j :| 0 <= j < |values| && ExtendOne(last, values)[j] == x;
      assert x == last + [values[j]];
      assert x[..|x| - 1] == last;
    }
  }

  /** Every derived state is a starting state followed by one allowed value of
      each later attribute, in attribute order. */
  lemma {:induction false} ProductMembers<V>(states: seq<seq<V>>, rest: seq<seq<V>>, x: seq<V>)
    requires x in Product(states, rest)
    ensures |x| >= |rest|
    ensures x[..|x| - |rest|] in states
    ensures forall t :: 0 <= t < |rest| ==> x[|x| - |rest| + t] in rest[t]
    decreases |rest|
  {
    if rest != [] {
      var init := rest[..|rest| - 1];
      ExtendMember(Product(states, init), rest[|rest| - 1], x);
      var y := x[..|x| - 1];
      ProductMembers(states, init, y);
      assert x[..|x| - |rest|] == y[..|y| - |init|];
      forall t | 0 <= t < |rest| ensures x[|x| - |rest| + t] in rest[t] {
        if t < |rest| - 1 {
          assert x[|x| - |rest| + t] == y[|y| - |init| + t];
          assert init[t] == rest[t];
        }
      }
    } else {
      assert x[..|x|] == x;
    }
  }

  /** Deriving over one more attribute extends the states derived so far. */
  lemma ProductStep<V>(states: seq<seq<V>>, vals: seq<seq<V>>, t: nat)
    requires t < |vals|
    ensures Product(states, vals[..t + 1]) == Extend(Product(states, vals[..t]), vals[t])
  {
    assert vals[..t + 1][..t] == vals[..t];
  }

  /** The allowed values of each attribute, in order. */
  function AllowedOf<V>(attributes: seq<Attrib<V>>): (r: seq<seq<V>>)
    reads attributes
    ensures |r| == |attributes|
    ensures forall t :: 0 <= t < |attributes| ==> r[t] == attributes[t].allowedValues
    decreases |attributes|
  {
    if attributes == [] then []
    else AllowedOf(attributes[..|attributes| - 1]) + [attributes[|attributes| - 1].allowedValues]
  }


  /** The hybrid agent: its attributes (the first one's allowed values are the
      starting partial states), its observations, the perceptions it has
      received and its derived state space. */
  class BasicHybrid<V, P(==)> {
    const head: Attrib<seq<V>>
    const tail: seq<Attrib<V>>
    const observations: seq<P>
    var perceptions: seq<P>
    var states: seq<seq<V>>

    constructor (head: Attrib<seq<V>>, tail: seq<Attrib<V>>, observations: seq<P>)
      requires forall a :: a in tail ==> a as object != head as object
      modifies head
      ensures this.head == head && this.tail == tail && this.observations == observations
      ensures perceptions == []
      ensures states == head.allowedValues == Product(old(head.allowedValues), AllowedOf(tail))
    {
      this.head := head;
      this.tail := tail;
      this.observations := observations;
      perceptions := [];
      states := [];
      new;
      states := DeriveStates();
    }

    /** `_derive_states`: extends the first attribute's list in place, one later
        attribute at a time, and returns that same list. The first attribute must
        not appear again later: the inner loop would then iterate over the list it
        appends to. */
    method DeriveStates() returns (result: seq<seq<V>>)
      requires forall a :: a in tail ==> a as object != head as object
      modifies head
      ensures result == head.allowedValues == Product(old(head.allowedValues), AllowedOf(tail))
    {
      ghost var start := head.allowedValues;
      ghost var vals := AllowedOf(tail);
      for t := 0 to |tail|
        invariant forall i :: 0 <= i < |tail| ==> tail[i].allowedValues == vals[i]
        invariant head.allowedValues == Product(start, vals[..t])
      {
        ghost var prev := head.allowedValues;
        assert tail[t].allowedValues == vals[t];
        ExtendStates(tail[t].allowedValues);
        assert head.allowedValues == Extend(prev, vals[t]);
        ProductStep(start, vals, t);
        assert head.allowedValues == Product(start, vals[..t + 1]);
        assert forall i :: 0 <= i < |tail| ==> tail[i].allowedValues == vals[i] by {
          forall i | 0 <= i < |tail| ensures tail[i].allowedValues == vals[i] {
            assert tail[i] in tail;
            assert tail[i] as object != head as object;
          }
        }
      }
      assert vals[..|tail|] == vals;
      ghost var now := AllowedOf(tail);
      assert |now| == |vals|;
      assert forall i :: 0 <= i < |vals| ==> now[i] == vals[i];
      assert now == vals;
      result := head.allowedValues;
    }

    /** One round of `_derive_states`: append the extensions of the first `iters`
        states after them, then delete those `iters` states. */
    method ExtendStates(currentAllowed: seq<V>)
      modifies head
      ensures head.allowedValues == Extend(old(head.allowedValues), currentAllowed)
    {
      var iters := |head.allowedValues|;
      ghost var before := head.allowedValues;
      var idx := 0;
      while idx < iters
        invariant 0 <= idx <= iters
        invariant head.allowedValues == before + Extend(before[..idx], currentAllowed)
      {
        var state := head.allowedValues[idx];
        assert state == before[idx];
        ghost var done := head.allowedValues;
        for j := 0 to |currentAllowed|
          invariant head.allowedValues == done + ExtendOne(state, currentAllowed[..j])
        {
          head.allowedValues := head.allowedValues + [state + [currentAllowed[j]]];
          ExtendOneStep(state, currentAllowed, j);
        }
        ExtendStep(before, currentAllowed, idx);
        idx := idx + 1;
      }
      assert before[..iters] == before;
      head.allowedValues := head.allowedValues[iters..];
    }

    /** `add_perception`: the perception must be one of the observations
        (an AssertionError otherwise); it is appended at the end. */
    method AddPerception(perception: P) returns (r: Outcome)
      modifies this`perceptions
      ensures r.Pass? <==> perception in observations
      ensures r.Fail? ==> r.error == AssertionError && perceptions == old(perceptions)
      ensures r.Pass? ==> perceptions == old(perceptions) + [perception]
    {
      if perception !in observations {
        return Fail(AssertionError);
      }
      perceptions := perceptions + [perception];
      return Pass;
    }
  }

  /** The builder of a hybrid agent. Every field starts unset; the perceptions
      and the attributes have no setter. The field values are opaque here. */
  class BasicHybridBuilder<T> {
    var perceptions: Option<T>
    var attributes: Option<T>
    var goals: Option<T>
    var actions: Option<T>
    var observations: Option<T>
    var transitions: Option<T>
    var util: Option<T>
    var desire: Option<T>
    var refocus: Option<T>

    /** No setter exists for these two fields. */
    ghost predicate Valid()
      reads this
    {
      perceptions.None? && attributes.None?
    }

    constructor ()
      ensures Valid()
      ensures goals.None? && actions.None? && observations.None? && transitions.None?
      ensures util.None? && desire.None? && refocus.None?
    {
      perceptions, attributes, goals, actions, observations := None, None, None, None, None;
      transitions, util, desire, refocus := None, None, None, None;
    }

    /** The nine fields that `vars(self).values()` goes over. Python lists
        them in dictionary order; `finalize` only asks whether any is unset,
        so the order here is immaterial. */
    function Fields(): (r: seq<Option<T>>)
      reads this
      ensures |r| == 9 && r[0] == perceptions && r[1] == attributes
    {
      [perceptions, attributes, goals, actions, observations, transitions, util, desire, refocus]
    }

    /** `finalize`: ValueError when any field is unset; otherwise the arguments
        of the hybrid agent, in constructor order. */
    method Finalize() returns (r: Result<seq<T>>)
      ensures r.Err? <==> exists k :: 0 <= k < |Fields()| && Fields()[k].None?
      ensures r.Err? ==> r.error == ValueError
      ensures Valid() ==> r.Err?
      ensures r.Ok? ==>
        && |r.value| == 8 && attributes == Some(r.value[0]) && goals == Some(r.value[1])
        && actions == Some(r.value[2]) && observations == Some(r.value[3]) && transitions == Some(r.value[4])
        && util == Some(r.value[5]) && desire == Some(r.value[6]) && refocus == Some(r.value[7])
    {
      var fields := Fields();
      for k := 0 to |fields|
        invariant forall m :: 0 <= m < k ==> fields[m].Some?
      {
        if fields[k].None? {
          return Err(ValueError);
        }
      }
      assert fields[1].Some? && fields[2].Some? && fields[3].Some? && fields[4].Some?;
      assert fields[5].Some? && fields[6].Some? && fields[7].Some? && fields[8].Some?;
      return Ok([attributes.value, goals.value, actions.value, observations.value,
                 transitions.value, util.value, desire.value, refocus.value]);
    }

    method SetUtil(x: T)
      modifies this`util
      ensures util == Some(x)
    {
      util := Some(x);
    }

    method SetObservations(x: T)
      modifies this`observations
      ensures observations == Some(x)
    {
      observations := Some(x);
    }

    method SetGoals(x: T)
      modifies this`goals
      ensures goals == Some(x)
    {
      goals := Some(x);
    }

    method SetActions(x: T)
      modifies this`actions
      ensures actions == Some(x)
    {
      actions := Some(x);
    }

    method SetTransitions(x: T)
      modifies this`transitions
      ensures transitions == Some(x)
    {
      transitions := Some(x);
    }

    method SetDesire(x: T)
      modifies this`desire
      ensures desire == Some(x)
    {
      desire := Some(x);
    }

    method SetRefocus(x: T)
      modifies this`refocus
      ensures refocus == Some(x)
    {
      refocus := Some(x);
    }
  }

  /** However the setters are used, finalizing fails: the two fields without a
      setter stay unset. */
  method BuilderNeverFinalizes<T>(xs: seq<T>, which: seq<nat>) returns (r: Result<seq<T>>)
    requires |xs| == |which|
    ensures r.Err? && r.error == ValueError
  {
    var b := new BasicHybridBuilder<T>();
    for k := 0 to |xs|
      invariant b.Valid()
    {
      match which[k] % 7
      case 0 => b.SetUtil(xs[k]);
      case 1 => b.SetObservations(xs[k]);
      case 2 => b.SetGoals(xs[k]);
      case 3 => b.SetActions(xs[k]);
      case 4 => b.SetTransitions(xs[k]);
      case 5 => b.SetDesire(xs[k]);
      case _ => b.SetRefocus(xs[k]);
    }
    r := b.Finalize();
  }
}
