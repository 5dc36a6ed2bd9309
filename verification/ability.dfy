/**
 The player's special ability: two integer timers read against the owner's age,
 giving three observable phases (ready, active, cooling down), and the area
 effect that kills every organism on the neighbouring cells while active.

 The owner is not referenced; its age and position are passed in.
 */
module AbilityTimer {
  import opened Wrappers
  import opened World

  /** Length, in ticks, of both the active window and the cooldown. */
  const ABILITY_DURATION: nat := 5

  /**
   `availableUntil` is the age at which the active window ends (0: never
   activated); `cooldownUntil` is the age at which the ability may be used
   again (0: no cooldown derived yet).
   */
  datatype Ability = Ability(availableUntil: nat, cooldownUntil: nat)

  /** The ability a new player starts with. */
  const Fresh: Ability := Ability(0, 0)

  /**
   Neither the active window nor a cooldown is running at `age`. An available
   ability is in neither of the other two phases.
   */
  predicate IsAvailable(a: Ability, age: nat)
    ensures IsAvailable(a, age) ==> !IsActivated(a, age) && !IsCoolingDown(a, age)
  {
    a.availableUntil <= age && a.cooldownUntil <= age
  }

  /**
   The active window is open at `age`. Only an ability that has been activated
   at some time can be, since `availableUntil` starts at 0.
   */
  predicate IsActivated(a: Ability, age: nat)
    ensures IsActivated(a, age) ==> a.availableUntil != 0 && !IsCoolingDown(a, age)
  {
    a.availableUntil > age
  }

  /** The active window has closed but the cooldown is still running at `age`. */
  predicate IsCoolingDown(a: Ability, age: nat)
  {
    a.availableUntil <= age && a.cooldownUntil > age
  }

  /**
   Opens the active window for ABILITY_DURATION ticks when the ability is
   available; a request at any other time is silently ignored.
   */
  function Activate(a: Ability, age: nat): (a': Ability)
    ensures IsAvailable(a, age) ==>
              a'.availableUntil == age + ABILITY_DURATION && a'.cooldownUntil == a.cooldownUntil
    ensures !IsAvailable(a, age) ==> a' == a
    ensures IsAvailable(a, age) <==> IsActivated(a', age) && !IsActivated(a, age)
    ensures !IsAvailable(a', age)
  {
    if !IsAvailable(a, age) then a
    else a.(availableUntil := age + ABILITY_DURATION)
  }

  /**
   Derives the cooldown of the last activation once its window has closed.
   The cooldown is derived at most once per activation: afterwards
   `cooldownUntil > availableUntil` and the guard no longer holds.
   */
  function UpdateTimers(a: Ability, age: nat): (a': Ability)
    ensures a'.availableUntil == a.availableUntil
    ensures a' != a <==>
              a.availableUntil != 0 && a.availableUntil <= age && a.availableUntil > a.cooldownUntil
    ensures a' != a ==> a'.cooldownUntil == a.availableUntil + ABILITY_DURATION
    ensures a'.cooldownUntil >= a.cooldownUntil
  {
    if a.availableUntil != 0 && a.availableUntil <= age && a.availableUntil > a.cooldownUntil then
      a.(cooldownUntil := a.availableUntil + ABILITY_DURATION)
    else
      a
  }

  /**
   The shapes the two timers can take when only `Activate` and `UpdateTimers`
   have touched them since `Fresh`: never used, activated with its cooldown
   still to be derived (the previous cooldown had ended before activation),
   or the cooldown of the last activation derived.
   */
  predicate Coherent(a: Ability)
  {
    || (a.availableUntil == 0 && a.cooldownUntil == 0)
    || a.cooldownUntil + ABILITY_DURATION <= a.availableUntil
    || a.cooldownUntil == a.availableUntil + ABILITY_DURATION
  }

  /** The first direction index at or after `i` with no neighbour cell, or the count. */
  function FirstGap(board: Board, pos: Point, i: nat): (k: nat)
    requires i <= board.neighbours
    ensures i <= k <= board.neighbours
    ensures forall j :: i <= j < k ==> board.resolve(pos, j).Some?
    ensures k < board.neighbours ==> board.resolve(pos, k).None?
    decreases board.neighbours - i
  {
    if i == board.neighbours then i
    else if board.resolve(pos, i).None? then i
    else FirstGap(board, pos, i + 1)
  }

  /** Organism `id` is registered at the cell in direction `j` of `pos`. */
  predicate RegisteredAt(board: Board, reg: Registry, pos: Point, j: nat, id: OrganismId)
  {
    match board.resolve(pos, j)
    case None => false
    case Some(c) => id in Occupants(reg, c)
  }

  /**
   The neighbour sweep from direction index `i` on: the organisms at each
   resolved cell in index order, stopping for good at the first index that
   resolves to no cell.
   */
  function Sweep(board: Board, reg: Registry, pos: Point, i: nat): seq<OrganismId>
    decreases board.neighbours - i
  {
    if i >= board.neighbours then []
    else
      match board.resolve(pos, i)
      case None => []
      case Some(c) => Occupants(reg, c) + Sweep(board, reg, pos, i + 1)
  }

  /**
   The ability's per-tick effect: the organisms it kills, in order. Nothing
   while the window is closed; otherwise exactly the organisms registered at
   neighbour cells whose index lies before the first unresolvable one.
   */
  function Update(a: Ability, age: nat, pos: Point, board: Board, reg: Registry): (killed: seq<OrganismId>)
    ensures !IsActivated(a, age) ==> killed == []
    ensures IsActivated(a, age) ==>
              forall id :: id in killed <==>
                exists j :: 0 <= j < FirstGap(board, pos, 0) && RegisteredAt(board, reg, pos, j, id)
  {
    if !IsActivated(a, age) then []
    else
      SweepKillsExactly(board, reg, pos, 0);
      Sweep(board, reg, pos, 0)
  }

  /**
   An organism is killed by the sweep from `i` exactly when it is registered
   at a neighbour whose index lies in `[i, FirstGap)`.
   */
  lemma {:induction false} SweepKillsExactly(board: Board, reg: Registry, pos: Point, i: nat)
    requires i <= board.neighbours
    ensures forall id :: id in Sweep(board, reg, pos, i) <==>
              exists j :: i <= j < FirstGap(board, pos, i) && RegisteredAt(board, reg, pos, j, id)
    decreases board.neighbours - i
  {
    if i == board.neighbours || board.resolve(pos, i).None? {
    } else {
      SweepKillsExactly(board, reg, pos, i + 1);
      var k := FirstGap(board, pos, i);
      var c := board.resolve(pos, i).value;
      assert FirstGap(board, pos, i + 1) == k;
      assert Sweep(board, reg, pos, i) == Occupants(reg, c) + Sweep(board, reg, pos, i + 1);
      forall id
        ensures id in Sweep(board, reg, pos, i) <==>
                  exists j :: i <= j < k && RegisteredAt(board, reg, pos, j, id)
      {
        if id in Sweep(board, reg, pos, i) {
          if !RegisteredAt(board, reg, pos, i, id) {
            assert id in Sweep(board, reg, pos, i + 1);
            var j :| i + 1 <= j < k && RegisteredAt(board, reg, pos, j, id);
          }
        }
        if exists j :: i <= j < k && RegisteredAt(board, reg, pos, j, id) {
          var j :| i <= j < k && RegisteredAt(board, reg, pos, j, id);
          if j > i {
            assert exists j' :: i + 1 <= j' < k && RegisteredAt(board, reg, pos, j', id);
          }
        }
      }
    }
  }

  /** Two boards that agree up to and including the first gap sweep alike. */
  predicate AgreeThroughGap(board: Board, other: Board, pos: Point)
  {
    && other.neighbours == board.neighbours
    && forall j :: 0 <= j <= FirstGap(board, pos, 0) && j < board.neighbours ==>
         other.resolve(pos, j) == board.resolve(pos, j)
  }

  /**
   No direction index after the first unresolvable one is touched: whatever a
   board resolves beyond its first gap, the ability kills the same organisms.
   */
  lemma UpdateIgnoresBeyondGap(a: Ability, age: nat, pos: Point, board: Board, other: Board, reg: Registry)
    requires AgreeThroughGap(board, other, pos)
    ensures Update(a, age, pos, other, reg) == Update(a, age, pos, board, reg)
  {
    var k := FirstGap(board, pos, 0);
    SweepAgrees(board, other, reg, pos, 0, k);
  }

  lemma {:induction false} SweepAgrees(board: Board, other: Board, reg: Registry, pos: Point, i: nat, k: nat)
    requires other.neighbours == board.neighbours
    requires i <= k == FirstGap(board, pos, 0)
    requires forall j :: i <= j <= k && j < board.neighbours ==> other.resolve(pos, j) == board.resolve(pos, j)
    ensures Sweep(other, reg, pos, i) == Sweep(board, reg, pos, i)
    decreases k - i
  {
    if i < board.neighbours && i < k {
      SweepAgrees(board, other, reg, pos, i + 1, k);
    }
  }

  /** `Activate` never lowers either timer; an effective activation raises `availableUntil`. */
  lemma ActivateMonotone(a: Ability, age: nat)
    ensures Activate(a, age).availableUntil >= a.availableUntil
    ensures Activate(a, age).cooldownUntil == a.cooldownUntil
    ensures Activate(a, age) != a ==> Activate(a, age).availableUntil > a.availableUntil
  {
  }

  /** A second activation inside the active window changes nothing. */
  lemma ActivateAgainIsNoOp(a: Ability, age: nat, later: nat)
    requires IsAvailable(a, age)
    requires age <= later < age + ABILITY_DURATION
    ensures Activate(Activate(a, age), later) == Activate(a, age)
  {
  }

  /** Reconciling twice at any ages gives what the first reconciliation gave, once it fired. */
  lemma UpdateTimersStable(a: Ability, age: nat, later: nat)
    requires UpdateTimers(a, age) != a
    ensures UpdateTimers(UpdateTimers(a, age), later) == UpdateTimers(a, age)
  {
  }

  /** Reconciling twice at the same age is the same as reconciling once. */
  lemma UpdateTimersIdempotent(a: Ability, age: nat)
    ensures UpdateTimers(UpdateTimers(a, age), age) == UpdateTimers(a, age)
  {
  }

  /**
   Ready, active and cooling down are pairwise exclusive and together cover
   every age: at each age the ability is in exactly one phase.
   */
  lemma PhasesExclusive(a: Ability, age: nat)
    ensures !(IsAvailable(a, age) && IsActivated(a, age))
    ensures !(IsAvailable(a, age) && IsCoolingDown(a, age))
    ensures !(IsActivated(a, age) && IsCoolingDown(a, age))
    ensures IsAvailable(a, age) || IsActivated(a, age) || IsCoolingDown(a, age)
  {
  }

  /** Both transitions keep the timers coherent. */
  lemma TransitionsKeepCoherent(a: Ability, age: nat)
    requires Coherent(a)
    ensures Coherent(Activate(a, age))
    ensures Coherent(UpdateTimers(a, age))
  {
  }

  /**
   The state after reconciling `a` once per tick at every age from `start`
   through `age`, the way the turn protocol does.
   */
  function Reconciled(a: Ability, start: nat, age: nat): Ability
    requires start <= age
    decreases age - start
  {
    if age == start then UpdateTimers(a, start)
    else UpdateTimers(Reconciled(a, start, age - 1), age)
  }

  /**
   One whole cycle: activated at `start` and reconciled every tick, the ability
   is active for ages `start` to `start + 4`, its cooldown is set to
   `start + 10` at age `start + 5`, and it is available again from
   `start + 10` on, not earlier.
   */
  lemma {:induction false} ActivationCycle(a: Ability, start: nat, age: nat)
    requires IsAvailable(a, start)
    requires start <= age
    ensures Reconciled(Activate(a, start), start, age) ==
              if age < start + ABILITY_DURATION then Activate(a, start)
              else Ability(start + ABILITY_DURATION, start + 2 * ABILITY_DURATION)
    ensures IsActivated(Reconciled(Activate(a, start), start, age), age) <==> age < start + ABILITY_DURATION
    ensures IsAvailable(Reconciled(Activate(a, start), start, age), age) <==> age >= start + 2 * ABILITY_DURATION
    decreases age - start
  {
    if age > start {
      ActivationCycle(a, start, age - 1);
    }
  }

  /** The cycle for a new player that uses its ability at age 0. */
  lemma FreshCycle(age: nat)
    ensures Activate(Fresh, 0) == Ability(5, 0)
    ensures age == 5 ==> Reconciled(Activate(Fresh, 0), 0, age).cooldownUntil == 10
    ensures IsActivated(Reconciled(Activate(Fresh, 0), 0, age), age) <==> age <= 4
    ensures IsAvailable(Reconciled(Activate(Fresh, 0), 0, age), age) <==> age >= 10
  {
    ActivationCycle(Fresh, 0, age);
  }

  /**
   Reconciliation is what starts the cooldown: at the age the window closes,
   an ability not yet reconciled is still available, so an activation that
   runs before reconciliation in that tick opens a new window with no cooldown.
   */
  lemma ActivateBeforeReconcileSkipsCooldown(start: nat)
    ensures IsAvailable(Activate(Fresh, start), start + ABILITY_DURATION)
    ensures !IsAvailable(UpdateTimers(Activate(Fresh, start), start + ABILITY_DURATION), start + ABILITY_DURATION)
  {
  }

  /**
   A board of four directions where direction `d` lies `d + 1` cells to the
   right, except that direction 2 is off the board.
   */
  function GapBoard(): Board
  {
    Board(4, (p: Point, d: nat) => if d == 2 then None else Some(Point(p.x + d + 1, p.y)), (p: Point) => true)
  }

  /**
   An active ability at the origin on `GapBoard` kills organism 4 (direction 1)
   and stops at direction 2: organism 7, at direction 3 beyond the gap, survives.
   */
  lemma GapStopsSweep()
    ensures Update(Ability(5, 0), 0, Point(0, 0), GapBoard(),
                   map[Point(2, 0) := [4], Point(4, 0) := [7]]) == [4]
  {
    var reg := map[Point(2, 0) := [4], Point(4, 0) := [7]];
    var b := GapBoard();
    assert b.resolve(Point(0, 0), 0) == Some(Point(1, 0));
    assert b.resolve(Point(0, 0), 1) == Some(Point(2, 0));
    assert b.resolve(Point(0, 0), 2) == None;
    assert Sweep(b, reg, Point(0, 0), 2) == [];
    assert Sweep(b, reg, Point(0, 0), 1) == [4];
  }
}
