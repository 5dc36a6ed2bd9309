# Player and ability of a tile-based organism simulation

A Dafny model of the player-controlled organism of the simulation: its special
ability and its turn protocol.

- **Ability timers** (`ability.dfy`, module `AbilityTimer`). The ability is two
  integer timers, `availableUntil` and `cooldownUntil`, read against the
  owner's age. The ability is *available* when both lie at or before the age,
  and *activated* while `availableUntil` lies after it. `Activate` opens a
  window of `ABILITY_DURATION = 5` ticks when the ability is available.
  `UpdateTimers` derives the cooldown (`availableUntil + 5`) once the window
  has closed. `Update` is the area effect: while activated it walks the
  direction indices in order, stops for good at the first index with no
  neighbour cell, and kills every organism registered at each resolved cell.
- **Turn protocol** (`player.dfy`, module `PlayerTurn`). The player is a record
  `{position, pendingMove, waiting, ability}`. `Move` stores a requested cell
  only if it exists and is legal. `ActivateAbility` is guarded activation.
  `Act` is one turn: reconcile the timers, then either commit the pending move
  and run the sweep around the new cell, or, with no move pending and the run
  interrupted, give up the turn while still waiting. `SetAbility` installs
  another ability. `Run` threads any sequence of requests, ability
  replacements and turns through these transitions.
- **Collaborators** (`world.dfy`, module `World`). The board is a direction
  count, a neighbour function returning `Option<Point>`, and a legality
  predicate. The organism index is a map from cell to a sequence of organism
  ids. The owner's age and the interrupt signal are plain inputs.

Timers touched only by activation and reconciliation have one of three shapes
(`Coherent`): never used; activated with its cooldown still to be derived; or
with the cooldown of the last activation derived. Moving, activating and taking
a turn keep that shape. `SetAbility` can install any timers, so a run keeps the
shape when every ability it installs has it.

## Model

| member | source | states |
|---|---|---|
| AbilityTimer.IsAvailable | game/organisms/animals/player.py:21-22 | available means `availableUntil <= age && cooldownUntil <= age`, the source condition; an available ability is neither active nor cooling down |
| AbilityTimer.IsActivated | game/organisms/animals/player.py:24-25 | activated means `availableUntil > age`, the source condition; only an ability activated at some time (non-zero `availableUntil`) can be, and it is then not cooling down |
| AbilityTimer.PhasesExclusive | game/organisms/animals/player.py:21-25 | ready, active and cooling down (window closed, `cooldownUntil > age`) are pairwise exclusive and together cover every age |
| AbilityTimer.Activate | game/organisms/animals/player.py:27-31 | when available, `availableUntil` becomes age + 5 and the cooldown is untouched; otherwise nothing changes; the call takes effect exactly when the ability was not active before and is active afterwards, and it is never available at that age afterwards |
| AbilityTimer.ActivateMonotone | game/organisms/animals/player.py:27-31 | activation never lowers a timer, and an effective activation strictly raises `availableUntil` |
| AbilityTimer.ActivateAgainIsNoOp | game/organisms/animals/player.py:27-31 | a second activation inside the 5-tick window changes nothing |
| AbilityTimer.UpdateTimers | game/organisms/animals/player.py:46-49 | the state changes exactly when `availableUntil` is non-zero, at or before the age and above `cooldownUntil`, and then `cooldownUntil` becomes `availableUntil + 5`; `availableUntil` is never touched and `cooldownUntil` never falls |
| AbilityTimer.UpdateTimersIdempotent | game/organisms/animals/player.py:46-49 | reconciling twice at one age equals reconciling once |
| AbilityTimer.UpdateTimersStable | game/organisms/animals/player.py:46-49 | once reconciliation has derived a cooldown, reconciling again at any age changes nothing |
| AbilityTimer.TransitionsKeepCoherent | game/organisms/animals/player.py:27-49 | activation and reconciliation keep the timers in one of the three coherent shapes |
| AbilityTimer.ActivationCycle | game/organisms/animals/player.py:11-49 | activated at `start` and reconciled every tick: active exactly for ages below `start + 5`, cooldown set to `start + 10` from age `start + 5`, available again exactly from `start + 10` |
| AbilityTimer.FreshCycle | game/organisms/animals/player.py:11-49 | a new ability activated at age 0 is active for ages 0-4, gets cooldown 10 at age 5, and is available exactly from age 10 |
| AbilityTimer.ActivateBeforeReconcileSkipsCooldown | game/organisms/animals/player.py:21-49 | at the age the window closes an unreconciled ability is still available, and reconciliation is what makes it unavailable |
| AbilityTimer.FirstGap | game/organisms/animals/player.py:37-39 | the index where the sweep stops: every earlier index resolves to a cell, and it is either the direction count or an index with no cell |
| AbilityTimer.SweepKillsExactly | game/organisms/animals/player.py:37-43 | an organism is killed by the sweep exactly when it is registered at the neighbour cell of some index before the first gap |
| AbilityTimer.Update | game/organisms/animals/player.py:33-43 | nothing is killed when the ability is not activated; when activated, exactly the organisms registered at neighbours before the first gap are killed |
| AbilityTimer.SweepAgrees | game/organisms/animals/player.py:37-39 | the sweep depends only on the indices up to the first gap |
| AbilityTimer.UpdateIgnoresBeyondGap | game/organisms/animals/player.py:37-39 | boards that agree up to the first gap give the same kills: no index after the gap is touched |
| AbilityTimer.GapStopsSweep | game/organisms/animals/player.py:33-43 | on a board whose direction 2 is off the board, the organism at direction 1 dies and the one at direction 3 survives |
| PlayerTurn.Move | game/organisms/animals/player.py:86-89 | a cell that exists and is legal replaces the pending move; any other request leaves the pending move as it was; position, waiting flag and ability never change |
| PlayerTurn.MoveOverwrites | game/organisms/animals/player.py:86-89 | of two valid requests the later one is pending |
| PlayerTurn.ActivateAbility | game/organisms/animals/player.py:81-84 | an available ability becomes activated with its window ending at age + 5; otherwise the player is unchanged; only the ability changes and its cooldown does not |
| PlayerTurn.ActivateAbilityGuardRedundant | game/organisms/animals/player.py:81-84 | the player's guard repeats the ability's own: the result equals a direct activation |
| PlayerTurn.NewPlayer | game/organisms/animals/player.py:51-58 | a new player stands at its starting cell with nothing pending, not waiting, and with zero timers, which are coherent and available at every age |
| PlayerTurn.IsWaiting | game/organisms/animals/player.py:91-92 | reports the waiting flag; `Act` states when it is set |
| PlayerTurn.GetAbility | game/organisms/animals/player.py:94-95 | returns the owned ability; `SetAbility` and `NewPlayer` state what it is |
| PlayerTurn.SetAbility | game/organisms/animals/player.py:97-98 | the new ability is owned from then on; nothing else about the player changes |
| PlayerTurn.Act | game/organisms/animals/player.py:66-79 | the timers are always reconciled; with a move pending the player moves there, the slot empties, the player no longer reports waiting and the kills are the sweep around the new cell under the reconciled timers; without one the player stays put, keeps waiting and kills nothing |
| PlayerTurn.ActIgnoresInterruptWhenMovePending | game/organisms/animals/player.py:71-75 | with a move pending the interrupt does not change the turn's outcome |
| PlayerTurn.ActKillsAroundDestination | game/organisms/animals/player.py:76-79 | a committed turn kills an organism exactly when the window is open and the organism sits at a neighbour of the destination before the first gap |
| PlayerTurn.ActAtWindowClose | game/organisms/animals/player.py:66-79 | on the tick the window closes the turn kills nothing, starts the cooldown and leaves the ability unavailable |
| PlayerTurn.MoveDuringWaitSameAsBefore | game/organisms/animals/player.py:66-89 | a valid move that arrives while a turn waits, after reconciliation, gives the same turn as the move requested before the turn |
| PlayerTurn.ActivationDuringWaitDiffers | game/organisms/animals/player.py:66-84 | at the tick the window closes, an activation arriving during the wait is refused and the cooldown runs (timers 5, 10), while one requested before the turn reopens the window (timers 10, 0) |
| PlayerTurn.Moves | game/organisms/animals/player.py:86-89 | a run of move requests changes only the pending slot and never empties a filled slot |
| PlayerTurn.InvalidMovesChangeNothing | game/organisms/animals/player.py:86-89 | any number of requests to missing or illegal cells leave the player exactly as it was |
| PlayerTurn.LastValidMoveCommitted | game/organisms/animals/player.py:66-89 | a turn commits the last valid requested cell, whatever number of invalid requests follow it |
| PlayerTurn.PlayerStepsKeepCoherent | game/organisms/animals/player.py:66-89 | moving, activating and taking a turn keep the timers coherent |
| PlayerTurn.RunKeepsCoherent | game/organisms/animals/player.py:66-98 | any sequence of move and activation requests, ability replacements and turns keeps coherent timers coherent, provided each installed ability is coherent |
| PlayerTurn.NewPlayerRunsCoherent | game/organisms/animals/player.py:51-98 | a new player's timers stay coherent through any run that installs only coherent abilities |

## Left out

- The wait loop's polling, its `sleep(0.1)` and its `print`, and the process-wide interrupt event: concurrency and timing. The interrupt is the boolean `interrupted` given to `Act`. A turn with no pending move and no interrupt blocks until another thread requests a move or sets the interrupt. A move that arrives during the wait is modelled as a `Move` before the turn, with the same result (`PlayerTurn.MoveDuringWaitSameAsBefore`), so `Act` requires one of the two and `Run` yields `None` at a turn that has neither.
- An activation request that arrives while a turn waits, after the timers were reconciled: `Run` can only place it before the turn. At the tick the window closes the two orders differ: the waiting turn refuses it and the cooldown runs, while the earlier request reopens the window with no cooldown (`PlayerTurn.ActivationDuringWaitDiffers`, and `AbilityTimer.ActivateBeforeReconcileSkipsCooldown`).
- Publishing the ability status and redrawing the board pane: display side effects.
- The animal base class: its constructor and its movement routine are not part of this model. A committed move sets the position to the target cell.
- Board geometry and the world's organism registry: external collaborators, modelled as the `Board` functions and the `Registry` map. The registry is taken as fixed during one sweep.
- What `kill()` does to an organism: the model records only which ids were killed, in order.
- `get_symbol`: it returns a constant.
- Direction indices are natural numbers: what the board does with a negative index is not part of this model.
- PlayerTurn.SetAbility: an ability here is only its two timers, so a replacement ability with different behaviour cannot be expressed, and it is taken to belong to the player it is installed on (in the program an ability reads its own owner's age and position, which for an ability built for another player is that player's).
- PlayerTurn.RunKeepsCoherent: runs that install an ability with incoherent timers through `SetAbility` are excluded, because `set_ability` accepts any ability and the invariant then need not hold.
