/** The grid world encoding of the hand-written agents (pcog/agent.py): cell and
    state indexing, the neighbour test, the hybrid agent's state space, the
    observation index and the danger-transition reward. */
module Agent {
  import opened Wrappers
  import EnvConf

  const WidthBlocks: int := 5
  const HeightBlocks: int := 5
  /** One slot per cell plus one for an unknown (`None`) position. */
  const L: int := HeightBlocks * WidthBlocks + 1
  /** Size of the transition table's state axis, `L * L * L * HealthObservation.N`. */
  const StateCount: int := L * L * L * EnvConf.HealthN

  type Cell = (int, int)

  predicate InGrid(c: Cell) {
    0 <= c.0 < HeightBlocks && 0 <= c.1 < WidthBlocks
  }

  /** `_grid_coordinates`: `(x, y) for x in range(height) for y in range(height)`. */
  function GridCoordinates(): (r: seq<Cell>)
    ensures |r| == 25
    ensures forall k :: 0 <= k < |r| ==> InGrid(r[k]) && r[k].0 * WidthBlocks + r[k].1 == k
  {
    seq(HeightBlocks * HeightBlocks, k requires 0 <= k => (k / HeightBlocks, k % HeightBlocks))
  }

  /** The coordinates `_get_all_states` ranges over: every cell, then `None`. */
  function Coordinates(): (r: seq<Option<Cell>>)
    ensures |r| == L
    ensures r[L - 1] == None
    ensures forall k :: 0 <= k < L - 1 ==> r[k].Some? && InGrid(r[k].value)
    ensures forall k :: 0 <= k < L ==> CellIdx(r[k]) == k
  {
    var g := GridCoordinates();
    seq(|g|, k requires 0 <= k < |g| => Some(g[k])) + [None]
  }

  /** The position of a cell, or `height * width` for an unknown one. */
  function CellIdx(c: Option<Cell>): int {
    match c
    case None => HeightBlocks * WidthBlocks
    case Some((x, y)) => x * WidthBlocks + y
  }

  /** `_idx`: the mixed-radix index of a state; unpacking an unknown humanoid
      position raises TypeError. */
  function Idx(humanoid: Option<Cell>, wolf: Option<Cell>, food: Option<Cell>, health: int): Result<int> {
    if humanoid.None? then Err(TypeError)
    else Ok(CellIdx(humanoid) * L * L * EnvConf.HealthN + CellIdx(wolf) * L * EnvConf.HealthN
            + CellIdx(food) * EnvConf.HealthN + health)
  }

  predicate KnownOrGrid(c: Option<Cell>) {
    c.None? || InGrid(c.value)
  }

  /** The cell stored in slot `j` of `Coordinates()`. */
  function CellOf(j: int): Option<Cell> {
    if j == HeightBlocks * WidthBlocks then None else Some((j / WidthBlocks, j % WidthBlocks))
  }

  lemma CellIdxRoundTrip(c: Option<Cell>)
    requires KnownOrGrid(c)
    ensures 0 <= CellIdx(c) < L
    ensures CellOf(CellIdx(c)) == c
  {
  }

  /** The inverse of `_idx` on the table's index range. */
  function DecodeIdx(i: int): (Option<Cell>, Option<Cell>, Option<Cell>, int) {
    (CellOf(i / (L * L * 3)), CellOf((i / (L * 3)) % L), CellOf((i / 3) % L), i % 3)
  }

  /** For a humanoid in the grid, a wolf and a food position each in the grid or
      unknown, and a health level, `_idx` lies inside the transition table and
      can be decoded back to the state, so no two such states share an index. */
  lemma IdxInTableAndDecodes(humanoid: Cell, wolf: Option<Cell>, food: Option<Cell>, health: int)
    requires InGrid(humanoid) && KnownOrGrid(wolf) && KnownOrGrid(food)
    requires health in EnvConf.HealthSet
    ensures Idx(Some(humanoid), wolf, food, health).Ok?
    ensures 0 <= Idx(Some(humanoid), wolf, food, health).value < StateCount
    ensures DecodeIdx(Idx(Some(humanoid), wolf, food, health).value) == (Some(humanoid), wolf, food, health)
  {
    CellIdxRoundTrip(Some(humanoid));
    CellIdxRoundTrip(wolf);
    CellIdxRoundTrip(food);
    var h, w, f := CellIdx(Some(humanoid)), CellIdx(wolf), CellIdx(food);
    assert L == 26 && L * L * EnvConf.HealthN == 2028 && L * EnvConf.HealthN == 78 && EnvConf.HealthN == 3;
    var i := h * 2028 + w * 78 + f * 3 + health;
    assert Idx(Some(humanoid), wolf, food, health).value == i;
    MixedRadix(h, w, f, health);
    assert DecodeIdx(i) == (CellOf(h), CellOf(w), CellOf(f), health);
  }

  lemma MixedRadix(h: int, w: int, f: int, hl: int)
    requires 0 <= h < 25 && 0 <= w < 26 && 0 <= f < 26 && 0 <= hl < 3
    ensures var i := h * 2028 + w * 78 + f * 3 + hl;
      0 <= i < 52728 && i / 2028 == h && (i / 78) % 26 == w && (i / 3) % 26 == f && i % 3 == hl
  {
    var i := h * 2028 + w * 78 + f * 3 + hl;
    assert i == (h * 26 + w) * 78 + (f * 3 + hl);
    assert i / 3 == (h * 26 + w) * 26 + f;
    assert i / 78 == h * 26 + w;
  }

  lemma IdxInjective(h1: Cell, w1: Option<Cell>, f1: Option<Cell>, l1: int,
                     h2: Cell, w2: Option<Cell>, f2: Option<Cell>, l2: int)
    requires InGrid(h1) && KnownOrGrid(w1) && KnownOrGrid(f1) && l1 in EnvConf.HealthSet
    requires InGrid(h2) && KnownOrGrid(w2) && KnownOrGrid(f2) && l2 in EnvConf.HealthSet
    requires Idx(Some(h1), w1, f1, l1) == Idx(Some(h2), w2, f2, l2)
    ensures h1 == h2 && w1 == w2 && f1 == f2 && l1 == l2
  {
    IdxInTableAndDecodes(h1, w1, f1, l1);
    IdxInTableAndDecodes(h2, w2, f2, l2);
  }

  /** `_get_all_states`: every (humanoid, wolf, food, health) over the
      coordinates with `None` appended, humanoid-major, health-minor. */
  function AllStates(): (r: seq<(Option<Cell>, Option<Cell>, Option<Cell>, int)>)
    ensures |r| == L * L * L * 3
  {
    var c := Coordinates();
    seq(L * L * L * 3, k requires 0 <= k < L * L * L * 3 =>
      (c[k / (L * L * 3)], c[(k / (L * 3)) % L], c[(k / 3) % L], k % 3))
  }

  /** Enumeration order agrees with `_idx`: the k-th state has index k, except
      the last `L * L * 3` states, whose humanoid is unknown and cannot be indexed. */
  lemma AllStatesIndexed(k: int)
    requires 0 <= k < |AllStates()|
    ensures var s := AllStates()[k];
      Idx(s.0, s.1, s.2, s.3) == if k < (L - 1) * L * L * 3 then Ok(k) else Err(TypeError)
  {
    var c := Coordinates();
    var s := AllStates()[k];
    var h, w, f, hl := k / 2028, (k / 78) % 26, (k / 3) % 26, k % 3;
    assert s == (c[h], c[w], c[f], hl);
    Decompose(k);
    if h < L - 1 {
      assert CellIdx(c[h]) == h && CellIdx(c[w]) == w && CellIdx(c[f]) == f;
    }
  }

  lemma Decompose(k: int)
    requires 0 <= k < 52728
    ensures 0 <= k / 2028 < 26 && 0 <= (k / 78) % 26 < 26 && 0 <= (k / 3) % 26 < 26
    ensures k == (k / 2028) * 2028 + ((k / 78) % 26) * 78 + ((k / 3) % 26) * 3 + k % 3
  {
    var q3 := k / 3;
    assert k == q3 * 3 + k % 3;
    var q78 := q3 / 26;
    assert q3 == q78 * 26 + q3 % 26;
    assert k / 78 == q78;
    assert q78 == (q78 / 26) * 26 + q78 % 26;
    assert k / 2028 == q78 / 26;
  }

  /** `_is_neighbour` as written: both positions known and the cells share a
      row band or a column band (`or`, not `and`). */
  predicate IsNeighbour(a: Option<Cell>, b: Option<Cell>) {
    if a.None? || b.None? then false
    else Abs(a.value.0 - b.value.0) <= 1 || Abs(a.value.1 - b.value.1) <= 1
  }

  function Abs(x: int): nat { if x < 0 then -x else x }

  lemma IsNeighbourProperties(a: Option<Cell>, b: Option<Cell>)
    ensures (a.None? || b.None?) ==> !IsNeighbour(a, b)
    ensures IsNeighbour(a, b) == IsNeighbour(b, a)
    ensures a.Some? ==> IsNeighbour(a, a)
    ensures a.Some? && b.Some? && (a.value.0 == b.value.0 || a.value.1 == b.value.1) ==> IsNeighbour(a, b)
  {
  }

  /** Two cells four columns apart in the same row count as neighbours,
      though they are not adjacent. */
  lemma IsNeighbourFarCells()
    ensures IsNeighbour(Some((0, 0)), Some((0, 4)))
    ensures !IsAdjacent(Some((0, 0)), Some((0, 4)))
  {
  }

  /** The neighbour test with `and`: the eight surrounding cells and the cell itself. */
  predicate IsAdjacent(a: Option<Cell>, b: Option<Cell>) {
    if a.None? || b.None? then false
    else Abs(a.value.0 - b.value.0) <= 1 && Abs(a.value.1 - b.value.1) <= 1
  }

  lemma IsAdjacentProperties(a: Option<Cell>, b: Option<Cell>)
    ensures (a.None? || b.None?) ==> !IsAdjacent(a, b)
    ensures IsAdjacent(a, b) == IsAdjacent(b, a)
    ensures a.Some? ==> IsAdjacent(a, a)
    ensures IsAdjacent(a, b) ==> IsNeighbour(a, b)
    ensures a.Some? && b.Some? ==>
      (IsAdjacent(a, b) <==> Max(Abs(a.value.0 - b.value.0), Abs(a.value.1 - b.value.1)) <= 1)
  {
  }

  function Max(a: int, b: int): int { if a >= b then a else b }

  // ---------------------------------------------------------------------------
  // Hybrid agent

  type HybridState = (bool, bool, int, int)

  /** `Hybrid._state_space`: (food seen, enemy seen, health, danger) with both
      flags over [True, False] and the levels in ascending order. */
  function HybridStateSpace(): (r: seq<HybridState>)
    ensures |r| == 48
  {
    var flags := [true, false];
    seq(48, k requires 0 <= k < 48 => (flags[k / 24], flags[(k / 12) % 2], (k / 4) % 3, k % 4))
  }

  function HybridIndex(s: HybridState): int {
    (if s.0 then 0 else 1) * 24 + (if s.1 then 0 else 1) * 12 + s.2 * 4 + s.3
  }

  /** The 48 tuples are pairwise distinct and are exactly the combinations of a
      health level and a danger level with the two flags. */
  lemma HybridStateSpaceExact(s: HybridState)
    ensures s in HybridStateSpace() <==> s.2 in EnvConf.HealthSet && s.3 in EnvConf.DangerSet
    ensures forall k :: 0 <= k < 48 ==> HybridIndex(HybridStateSpace()[k]) == k
  {
    var r := HybridStateSpace();
    forall k | 0 <= k < 48 ensures HybridIndex(r[k]) == k {
      HybridDigits(k);
    }
    if s.2 in EnvConf.HealthSet && s.3 in EnvConf.DangerSet {
      var b0, b1 := if s.0 then 0 else 1, if s.1 then 0 else 1;
      HybridIndexDigits(b0, b1, s.2, s.3);
      var k := HybridIndex(s);
      assert r[k] == s;
    }
  }

  lemma HybridDigits(k: int)
    requires 0 <= k < 48
    ensures k == (k / 24) * 24 + ((k / 12) % 2) * 12 + ((k / 4) % 3) * 4 + k % 4
  {
    var q := k / 4;
    assert k == q * 4 + k % 4;
    assert q == (q / 3) * 3 + q % 3 && k / 12 == q / 3;
    assert k / 12 == (k / 24) * 2 + (k / 12) % 2;
  }

  lemma HybridIndexDigits(b0: int, b1: int, h: int, d: int)
    requires 0 <= b0 < 2 && 0 <= b1 < 2 && 0 <= h < 3 && 0 <= d < 4
    ensures var k := b0 * 24 + b1 * 12 + h * 4 + d;
      0 <= k < 48 && k / 24 == b0 && (k / 12) % 2 == b1 && (k / 4) % 3 == h && k % 4 == d
  {
    var k := b0 * 24 + b1 * 12 + h * 4 + d;
    assert k / 4 == b0 * 6 + b1 * 3 + h;
    assert k / 12 == b0 * 2 + b1;
  }

  lemma HybridStateSpaceDistinct(i: int, j: int)
    requires 0 <= i < j < 48
    ensures HybridStateSpace()[i] != HybridStateSpace()[j]
  {
    HybridStateSpaceExact((true, true, 0, 0));
  }

  // ---------------------------------------------------------------------------
  // Observation index and reward

  /** `oi`: index of a (wolf proximity, health) observation pair. */
  function Oi(wolfProximity: int, healthObservation: int): int {
    wolfProximity * EnvConf.HealthN + healthObservation
  }

  /** Both components can be read back from the index, so it is injective. */
  lemma OiDecodes(w: int, h: int)
    requires h in EnvConf.HealthSet
    ensures Oi(w, h) / EnvConf.HealthN == w && Oi(w, h) % EnvConf.HealthN == h
  {
  }

  lemma OiInjective(w1: int, h1: int, w2: int, h2: int)
    requires h1 in EnvConf.HealthSet && h2 in EnvConf.HealthSet
    requires Oi(w1, h1) == Oi(w2, h2)
    ensures w1 == w2 && h1 == h2
  {
    OiDecodes(w1, h1);
    OiDecodes(w2, h2);
  }

  /** `find_reward`: penalise moving to a higher danger level, reward staying,
      reward lowering it most; the action plays no part. */
  function FindReward(sf: int, a: int, si: int): (r: real)
    ensures r < 0.0 <==> si < sf
    ensures r == 5.0 <==> si == sf
    ensures r > 5.0 <==> si > sf
  {
    if si < sf then -10.0
    else if si == sf then 5.0
    else 20.0
  }

  lemma FindRewardIgnoresAction(sf: int, a: int, b: int, si: int)
    ensures FindReward(sf, a, si) == FindReward(sf, b, si)
  {
  }
}
