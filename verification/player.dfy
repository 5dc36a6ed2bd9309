/**
 The player's turn protocol as sequential state transitions. A move requested
 from outside is held in a single pending slot; each turn reconciles the
 ability timers, then either commits the pending move and applies the ability,
 or gives up the turn when the run is interrupted before a move arrives.

 The owner's age, the board, the organism index and the interrupt signal are
 inputs; movement is "the position becomes the target cell".
 */
module PlayerTurn {
  import opened Wrappers
  import opened World
  import opened AbilityTimer

  /** The player's state between calls: where it stands, the move it was asked to make, whether it is blocked waiting for one, and its ability. */
  datatype Player = Player(position: Point, pendingMove: Option<Point>, waiting: bool, ability: Ability)

  /** The outcome of one turn: the player afterwards and the organisms its ability killed, in order. */
  datatype Turn = Turn(player: Player, killed: seq<OrganismId>)

  /**
   A player created at `pos`: nothing pending, not waiting, and an ability
   that is coherent and available at every age until first used.
   */
  function NewPlayer(pos: Point): (p: Player)
    ensures p.position == pos && p.pendingMove == None && !IsWaiting(p)
    ensures Coherent(GetAbility(p))
    ensures forall age: nat :: IsAvailable(GetAbility(p), age)
  {
    Player(pos, None, false, Fresh)
  }

  /** The cell in direction `dir` of the player, when it exists and is legal. */
  predicate ValidTarget(p: Player, board: Board, dir: nat)
  {
    match board.resolve(p.position, dir)
    case None => false
    case Some(c) => board.legal(c)
  }

  /**
   Requests a move in direction `dir`. Only a cell that exists and is legal is
   stored, replacing any earlier request; otherwise the request is dropped and
   whatever was pending stays pending.
   */
  function Move(p: Player, board: Board, dir: nat): (p': Player)
    ensures p'.position == p.position && p'.waiting == p.waiting && p'.ability == p.ability
    ensures ValidTarget(p, board, dir) ==> p'.pendingMove == board.resolve(p.position, dir)
    ensures !ValidTarget(p, board, dir) ==> p'.pendingMove == p.pendingMove
    ensures p'.pendingMove != p.pendingMove ==>
              p'.pendingMove.Some? && board.legal(p'.pendingMove.value)
  {
    match board.resolve(p.position, dir)
    case None => p
    case Some(c) => if board.legal(c) then p.(pendingMove := Some(c)) else p
  }

  /** Activates the ability at `age` when it is available; otherwise nothing changes. */
  function ActivateAbility(p: Player, age: nat): (p': Player)
    ensures p'.position == p.position && p'.pendingMove == p.pendingMove && p'.waiting == p.waiting
    ensures IsAvailable(p.ability, age) ==>
              IsActivated(p'.ability, age) && p'.ability.availableUntil == age + ABILITY_DURATION
    ensures !IsAvailable(p.ability, age) ==> p' == p
    ensures p'.ability.cooldownUntil == p.ability.cooldownUntil
  {
    if IsAvailable(p.ability, age) then p.(ability := Activate(p.ability, age)) else p
  }

  /** Whether the player is blocked waiting for a move. */
  function IsWaiting(p: Player): bool
  {
    p.waiting
  }

  /** The ability the player currently owns. */
  function GetAbility(p: Player): Ability
  {
    p.ability
  }

  /** Replaces the player's ability; nothing else about the player changes. */
  function SetAbility(p: Player, a: Ability): (p': Player)
    ensures GetAbility(p') == a
    ensures p'.position == p.position && p'.pendingMove == p.pendingMove && p'.waiting == p.waiting
  {
    p.(ability := a)
  }

  /**
   One turn at `age`. The timers are reconciled first. With a move pending,
   the move is committed (the slot is emptied and the player stops waiting)
   and the ability then sweeps around the new position with the reconciled
   timers; the interrupt is not consulted. With no move pending, an interrupt
   abandons the turn: the player is left waiting where it stood and nothing
   is killed. With neither, the turn blocks until another thread requests a
   move or sets the interrupt; a move arriving during the wait is modelled as
   a `Move` before the turn, which gives the same result
   (`MoveDuringWaitSameAsBefore`), so that case is excluded here.
   */
  function Act(p: Player, age: nat, board: Board, reg: Registry, interrupted: bool): (t: Turn)
    requires p.pendingMove.Some? || interrupted
    ensures t.player.ability == UpdateTimers(p.ability, age)
    ensures t.player.pendingMove == None
    ensures IsWaiting(t.player) <==> p.pendingMove.None?
    ensures p.pendingMove.Some? ==> t.player.position == p.pendingMove.value
    ensures p.pendingMove.None? ==> t.player.position == p.position && t.killed == []
    ensures p.pendingMove.Some? ==>
              t.killed == Update(UpdateTimers(p.ability, age), age, p.pendingMove.value, board, reg)
  {
    var a := UpdateTimers(p.ability, age);
    match p.pendingMove
    case None => Turn(p.(waiting := true, ability := a), [])
    case Some(dest) => Turn(Player(dest, None, false, a), Update(a, age, dest, board, reg))
  }

  /** With a move pending the interrupt makes no difference: the wait loop is never entered. */
  lemma ActIgnoresInterruptWhenMovePending(p: Player, age: nat, board: Board, reg: Registry)
    requires p.pendingMove.Some?
    ensures Act(p, age, board, reg, true) == Act(p, age, board, reg, false)
  {
  }

  /**
   The organisms a committed turn kills are exactly those registered at the
   neighbours of the destination before its first gap, provided the window is
   still open after reconciliation; none otherwise.
   */
  lemma ActKillsAroundDestination(p: Player, age: nat, board: Board, reg: Registry, interrupted: bool, id: OrganismId)
    requires p.pendingMove.Some?
    ensures id in Act(p, age, board, reg, interrupted).killed <==>
              IsActivated(p.ability, age) &&
              exists j :: 0 <= j < FirstGap(board, p.pendingMove.value, 0) &&
                RegisteredAt(board, reg, p.pendingMove.value, j, id)
  {
  }

  /**
   Reconciliation precedes the sweep but never reopens a window: on the tick
   the window closes, the turn kills nothing and the cooldown starts.
   */
  lemma ActAtWindowClose(p: Player, board: Board, reg: Registry, interrupted: bool)
    requires p.ability.availableUntil > 0
    requires p.ability.cooldownUntil < p.ability.availableUntil
    requires p.pendingMove.Some? || interrupted
    ensures Act(p, p.ability.availableUntil, board, reg, interrupted).killed == []
    ensures Act(p, p.ability.availableUntil, board, reg, interrupted).player.ability.cooldownUntil
              == p.ability.availableUntil + ABILITY_DURATION
    ensures !IsAvailable(Act(p, p.ability.availableUntil, board, reg, interrupted).player.ability,
                         p.ability.availableUntil)
  {
  }

  /**
   A move that arrives while a turn waits gives the same turn as the same
   move requested before the turn: reconciling first and then waiting for the
   request ends where requesting first and then taking the turn does.
   */
  lemma MoveDuringWaitSameAsBefore(p: Player, age: nat, board: Board, reg: Registry, dir: nat)
    requires p.pendingMove.None?
    requires ValidTarget(p, board, dir)
    ensures Move(Act(p, age, board, reg, true).player, board, dir).pendingMove.Some?
    ensures Act(Move(Act(p, age, board, reg, true).player, board, dir), age, board, reg, false)
              == Act(Move(p, board, dir), age, board, reg, false)
  {
    UpdateTimersIdempotent(p.ability, age);
  }

  /**
   An activation that arrives while a turn waits is not the same as one
   requested before the turn. At the tick the window closes, the waiting turn
   has already reconciled, so the request is refused and the cooldown runs;
   requested before the turn, the request reopens the window and the cooldown
   of the earlier activation is never derived.
   */
  lemma ActivationDuringWaitDiffers(pos: Point, board: Board, reg: Registry)
    ensures var p := Player(pos, None, false, Ability(5, 0));
            && ActivateAbility(Act(p, 5, board, reg, true).player, 5).ability == Ability(5, 10)
            && Act(ActivateAbility(p, 5), 5, board, reg, true).player.ability == Ability(10, 0)
  {
  }

  /**
   The player after requesting moves in the directions `dirs`, in order.
   Requests only ever fill the pending slot: a pending move stays pending,
   and nothing but the slot changes.
   */
  function Moves(p: Player, board: Board, dirs: seq<nat>): (p': Player)
    ensures p'.position == p.position && p'.waiting == p.waiting && p'.ability == p.ability
    ensures p.pendingMove.Some? ==> p'.pendingMove.Some?
    decreases |dirs|
  {
    if dirs == [] then p else Moves(Move(p, board, dirs[0]), board, dirs[1..])
  }

  /** Requests none of which names a valid target leave the player exactly as it was. */
  lemma {:induction false} InvalidMovesChangeNothing(p: Player, board: Board, dirs: seq<nat>)
    requires forall i :: 0 <= i < |dirs| ==> !ValidTarget(p, board, dirs[i])
    ensures Moves(p, board, dirs) == p
    decreases |dirs|
  {
    if dirs != [] {
      assert Move(p, board, dirs[0]) == p;
      InvalidMovesChangeNothing(p, board, dirs[1..]);
    }
  }

  /**
   The last valid request before a turn is the move the turn commits, however
   many invalid requests follow it.
   */
  lemma LastValidMoveCommitted(p: Player, board: Board, dir: nat, bad: seq<nat>, age: nat, reg: Registry, interrupted: bool)
    requires ValidTarget(p, board, dir)
    requires forall i :: 0 <= i < |bad| ==> !ValidTarget(p, board, bad[i])
    ensures Act(Moves(Move(p, board, dir), board, bad), age, board, reg, interrupted).player.position
              == board.resolve(p.position, dir).value
  {
    InvalidMovesChangeNothing(Move(p, board, dir), board, bad);
  }

  /** Two valid requests: the later one overwrites the earlier. */
  lemma MoveOverwrites(p: Player, board: Board, first: nat, second: nat)
    requires ValidTarget(p, board, second)
    ensures Move(Move(p, board, first), board, second).pendingMove == board.resolve(p.position, second)
  {
  }

  /**
   The player's guard on activation only repeats the ability's own guard:
   activating through the player is the same as activating the ability.
   */
  lemma ActivateAbilityGuardRedundant(p: Player, age: nat)
    ensures ActivateAbility(p, age).ability == Activate(p.ability, age)
  {
  }

  /** Every transition of the player keeps its ability's timers coherent. */
  lemma PlayerStepsKeepCoherent(p: Player, age: nat, board: Board, reg: Registry, dir: nat, interrupted: bool)
    requires Coherent(p.ability)
    ensures Coherent(Move(p, board, dir).ability)
    ensures Coherent(ActivateAbility(p, age).ability)
    ensures p.pendingMove.Some? || interrupted ==> Coherent(Act(p, age, board, reg, interrupted).player.ability)
  {
  }

  /**
   What the outside world can do to a player: request a move, request
   activation, install another ability, or run a turn.
   */
  datatype Event =
    | MoveRequest(board: Board, dir: nat)
    | ActivateRequest(age: nat)
    | SetAbilityRequest(ability: Ability)
    | TurnAt(age: nat, board: Board, reg: Registry, interrupted: bool)

  /** Every ability the events install has coherent timers. */
  predicate InstallsCoherent(events: seq<Event>)
  {
    forall i :: 0 <= i < |events| && events[i].SetAbilityRequest? ==> Coherent(events[i].ability)
  }

  /**
   The player after the events in order, or `None` once a turn starts with
   no move pending and no interrupt: such a turn waits for a request from
   another thread, which a sequential run expresses by placing that request
   before the turn instead.
   */
  function Run(p: Player, events: seq<Event>): Option<Player>
    decreases |events|
  {
    if events == [] then Some(p)
    else
      match events[0]
      case MoveRequest(board, dir) => Run(Move(p, board, dir), events[1..])
      case ActivateRequest(age) => Run(ActivateAbility(p, age), events[1..])
      case SetAbilityRequest(a) => Run(SetAbility(p, a), events[1..])
      case TurnAt(age, board, reg, interrupted) =>
        if p.pendingMove.None? && !interrupted then None
        else Run(Act(p, age, board, reg, interrupted).player, events[1..])
  }

  /**
   Coherent timers stay coherent through any run, as long as every ability
   installed along the way is itself coherent.
   */
  lemma {:induction false} RunKeepsCoherent(p: Player, events: seq<Event>)
    requires Coherent(p.ability)
    requires InstallsCoherent(events)
    ensures Run(p, events).Some? ==> Coherent(Run(p, events).value.ability)
    decreases |events|
  {
    if events != [] {
      match events[0]
      case MoveRequest(board, dir) =>
        RunKeepsCoherent(Move(p, board, dir), events[1..]);
      case ActivateRequest(age) =>
        TransitionsKeepCoherent(p.ability, age);
        RunKeepsCoherent(ActivateAbility(p, age), events[1..]);
      case SetAbilityRequest(a) =>
        assert events[0].SetAbilityRequest?;
        RunKeepsCoherent(SetAbility(p, a), events[1..]);
      case TurnAt(age, board, reg, interrupted) =>
        if p.pendingMove.Some? || interrupted {
          TransitionsKeepCoherent(p.ability, age);
          RunKeepsCoherent(Act(p, age, board, reg, interrupted).player, events[1..]);
        }
    }
  }

  /**
   A new player's timers are coherent, so they stay coherent through any run
   that installs only coherent abilities.
   */
  lemma NewPlayerRunsCoherent(pos: Point, events: seq<Event>)
    requires InstallsCoherent(events)
    ensures Run(NewPlayer(pos), events).Some? ==> Coherent(Run(NewPlayer(pos), events).value.ability)
  {
    RunKeepsCoherent(NewPlayer(pos), events);
  }
}
