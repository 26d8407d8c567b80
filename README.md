# Casino tycoon simulation, in Dafny

This project models the simulation core of `main.py`, a small pygame casino
tycoon game. Visitors walk in along one of three lanes of waypoints. At the end of
the lane they pick a slot machine, roulette table or blackjack table and play it for
50 a round until they lose three times in a row. They try at most two machines, then
leave by the nearest lane and disappear. The player places machines on the casino
floor, paying for each from the same cash the visitors' rounds feed. A timer spawns
a visitor every few seconds.

The model has six modules:

- `Wrappers` (`wrappers.dfy`): the `Option` type that stands for `None` or a value.
- `Lists` (`lists.dfy`): the Python list operations the program uses:
  - `list.index` becomes `IndexOf`;
  - `list.remove` becomes `RemoveFirst`;
  - the list comprehension that filters out one machine becomes `Without`.
- `Geometry` (`geometry.dfy`): points, squared distance, and the two search loops:
  - `find_closest_point` becomes the method `FindClosestPoint`;
  - `shortest_path_to_exit` becomes the method `ShortestPathToExit`.

  Each method is proved equal to a prefix-recursive function (`ClosestIn`,
  `ExitRouteIn`) that follows its loop step by step. The contracts of `ClosestIn`
  and `ClosestIndex` state the argmin property and the tie-breaking for one route;
  the lemmas `ExitRouteInIsNearest` and `ExitRouteIsNearest` state them across the
  lanes.
- `Machines` (`machines.dfy`): the machine catalog `machine_types`, the machine
  dictionaries, `CASINO_RECT` and pygame's `Rect.contains`.
- `Agents` (`agents.dfy`): one visitor's `NPC.update` as a pure function `Step` from
  the visitor's fields, the cash, the machines and the lanes to the fields and cash
  after one tick, plus whether the visitor took itself off the list. The lemmas beside
  it state the transition rules, the cash guard, the play accounting and the loss
  streak rules. `TickAgents` is the per-tick pass over all visitors on values.
- `Simulation` (`simulation.dfy`): the program's mutable state:
  - the class `NPC`, with the program's instance fields;
  - the class `World`, holding the module-level `money`, `machines`, `npcs` and the
    spawn timer;
  - `spawn_npc`, `place_machine` and the per-tick loop from `main`.

  `NPC.Update` is proved to leave the visitor's fields and the cash as `Agents.Step`
  says. `World.UpdateNpcs` is proved to leave them as `TickAgents` says, with exactly
  the visitors that left taken off the list.

Modelling choices:

- **Distances are squared.** `distance` takes a square root, which is strictly
  increasing on non-negative numbers. So every `<` or `>` between two distances the
  program computes has the same answer between the squared distances. The speed test
  `direction.length() > 1.5` becomes `SqDist > 2.25`.
- **Coordinates are reals.** They are exact reals, not floats. Visitors move by
  fractional steps.
- **Chance and float movement are inputs.** Each visitor's tick takes a `Draw`:
  - `roll`, the value of `random.random()`, in [0, 1);
  - `pick`, which stands for `random.choice(xs)` as `xs[pick % |xs|]`, so every
    element can be chosen (`AnyOtherMachineCanBeNext`);
  - `stepped`, the point a step of length 1.5 towards the current target lands on, used
    only when the visitor does not arrive.

  `NPC()` takes the `pick` for its lane. The per-tick loop takes one draw per
  position in the list.
- **Machines are values.** A placed machine is a dictionary that is never mutated, so
  it is a datatype. The dictionary comparison `m != self.target_machine` is value
  comparison, and so is datatype equality.
- **Visitors are compared by identity.** `self in npcs` and `npcs.remove(self)` use
  object identity, and so does `NPC` as a class.
- **The spawn timer follows the code.** It fires when the count exceeds `FPS * 5`
  (`spawn_timer > FPS * 5`) and then resets to 0. So a visitor appears every 301
  ticks, not every 300 as "every five seconds at 60 ticks per second" would suggest
  (`SpawnCadence`).
- **The player's position is integer.** It starts at (100, 350), moves by 4 per tick while a
  key is held, and is clamped to integer borders. `place_machine` therefore takes the position as integers `px`, `py`,
  which is also what `pygame.Rect` truncates to.

## Model

| member | source | states |
|---|---|---|
| Geometry.SqDist | main.py:72-73 | the square of `distance`, never negative |
| Geometry.ClosestIn | main.py:76-84 | the scan of the first `n` waypoints stops at one of them that none of them is strictly closer than, and every earlier one is strictly farther (ties go to the earliest) |
| Geometry.ClosestIndex | main.py:76-84 | the same for the whole route: the earliest waypoint of least distance |
| Geometry.FindClosestPoint | main.py:76-84 | returns a waypoint of the route that no waypoint is strictly closer than, and every waypoint before its first occurrence is strictly farther |
| Geometry.IndexOfClosest | main.py:93-98 | `path.index` of the closest waypoint is the index the scan stopped at |
| Geometry.ExitRouteIn | main.py:87-100 | the scan of the first `n` lanes returns a route exactly when `n` is positive, and the route names one of those lanes and a waypoint on it |
| Geometry.ExitRoute | main.py:87-100 | the same over all lanes: a route exactly when there is a lane, on a lane and a waypoint that exist |
| Geometry.ExitRouteInIsNearest | main.py:87-100 | after the first `n` lanes, the chosen one is joined at its own closest waypoint, no waypoint of those lanes is strictly nearer, and every earlier lane's closest waypoint is strictly farther (ties go to the earliest lane) |
| Geometry.ExitRouteIsNearest | main.py:87-100 | the same over all lanes |
| Geometry.ShortestPathToExit | main.py:87-100 | returns a route exactly when there are lanes; the route is a lane and an index on it, the index is that lane's closest waypoint, and no waypoint of any lane is strictly nearer |
| Lists.IndexOf | main.py:98 | `list.index`: an index holding the element, with no earlier occurrence |
| Lists.RemoveFirst | main.py:197-198 | `list.remove`: unchanged when the element is absent, one element shorter when present |
| Lists.RemoveFirstCounts | main.py:198 | `list.remove` takes out one occurrence and keeps every other element, counted as a multiset |
| Lists.RemoveFirstDistinct | main.py:197-198 | on a list without repetitions, removal keeps it so and takes out exactly that element |
| Lists.RemoveFirstSkips | main.py:198 | removal skips a prefix without the element: the prefix and the rest stay in order |
| Lists.Without | main.py:178 | the list comprehension keeps exactly the elements that differ from the given one, and is no longer than the list |
| Machines.Catalog | main.py:46-50 | the three machine types, each with positive cost and cooldown and a win chance strictly between 0 and 1 |
| Machines.NewMachine | main.py:213-219 | the dictionary `place_machine` appends: at the given position with the selected type, a win chance strictly between 0 and 1 and a positive cooldown |
| Machines.Fits | main.py:211-212 | a 50x50 footprint at (px, py) lies inside `CASINO_RECT` exactly when 50 <= px <= 700 and 300 <= py <= 450 |
| Agents.Spawned | main.py:104-113 | a new visitor starts valid, walking in, at the first waypoint of its lane, with no machine |
| Agents.Advance | main.py:120-126 | one step along the path, also used for leaving (main.py:189-195): only the position and the cursor change; the cursor advances by one exactly when the next waypoint is within 1.5, keeping the position, and otherwise the position becomes the step's end |
| Agents.Depart | main.py:156-157 | `state = "leaving"; set_exit_path()`: the visitor is leaving, with its cursor on its new path |
| Agents.MoveOn | main.py:172-186 | after a loss streak the machine is counted and the cooldown kept; the visitor heads for a machine exactly when it has given up on fewer than 2 and some machine other than the abandoned one exists, that machine is among `machines` and differs from the abandoned one, with losses and plays at 0; otherwise it departs |
| Agents.Play | main.py:149-186 | a play never removes the visitor and sets the cooldown to the machine's; below 50 in cash the cash is kept and the visitor leaves; otherwise the cash loses 50 and gains the win amount exactly on a win |
| Agents.Step | main.py:115-198 | every tick keeps the visitor valid (cursor on its path, a machine while heading for or playing one, fewer than 3 losses in a row while playing), keeps its machine among `machines`, never takes the cash below zero, and removes only a leaving visitor |
| Agents.StepOrder | main.py:115-198 | a tick never returns a visitor to walking in, only heading for a machine leads to playing, and a leaving visitor stays leaving |
| Agents.WalkOn | main.py:119-126 | before the last waypoint, walking in (and, by the same code at main.py:188-195, walking out) only moves the position or advances the cursor by exactly one; it advances exactly when the next waypoint is within a step, keeps the cursor on the path, and leaves the cash alone |
| Agents.WalkEnd | main.py:127-134 | at the end of the entry lane the visitor heads for a machine of `machines` exactly when there is one and the cash is at least 50, and otherwise leaves by the route `shortest_path_to_exit` gives |
| Agents.LeaveEnd | main.py:196-198 | at the end of the exit path the visitor is removed and its fields and the cash are unchanged |
| Agents.ApproachMachine | main.py:136-144 | heading for a machine: step towards it, or arrive and start playing with cooldown, losses and plays at 0 |
| Agents.WaitOutCooldown | main.py:146-148 | while the cooldown is positive, a tick only decrements it |
| Agents.PlayWithoutCash | main.py:149-158 | with less than 50 in cash the visitor leaves by the nearest route before any draw, the cash unchanged and the cooldown already set to the machine's |
| Agents.PlayRound | main.py:149-170 | a play costs 50 and pays the machine's win amount on a win, the cash staying non-negative; a win clears the losses, a loss adds one, and the play is counted |
| Agents.LossStreak | main.py:164-186 | the third loss in a row counts the machine; then the visitor leaves after two machines, heads for a machine that differs from the old one with fresh counters if there is one, and leaves otherwise |
| Agents.AnyOtherMachineCanBeNext | main.py:178-181 | every machine other than the abandoned one is the next target for some draw |
| Agents.Run | main.py:115-198 | over any number of ticks a lone visitor stays valid, keeps its machine among `machines` and keeps the cash non-negative |
| Agents.LeavingIsFinal | main.py:188-198 | once leaving, a visitor stays leaving on the same path; its cursor only moves forward and stays on the path, and the cash is not touched |
| Agents.TickAgents | main.py:353-354 | updating the visitors in list order, each against the cash the earlier ones left, keeps each valid with its machine among `machines`, removes only leaving visitors, and keeps the cash non-negative |
| Simulation.Lane | main.py:38-40 | one lane: twelve waypoints at x = 100, 150, ..., 650, the values of `range(100, 700, 50)`, at the given height |
| Simulation.Paths | main.py:37-41 | `paths`: three lanes (at heights 480, 420 and 360), none of them empty |
| Simulation.TimerStep | main.py:293-296 | one tick of `spawn_timer`: a spawn exactly when the timer resets to 0, otherwise the timer counts up by one; a timer at most `FPS * 5` stays so |
| Simulation.AfterTicks | main.py:293-296 | over `n` ticks at most `n` visitors are spawned, and a timer at most `FPS * 5` stays so |
| Simulation.SpawnCadence | main.py:289-296 | from a timer at most `FPS * 5`, after `n` ticks the timer is `(timer + n) mod 301` and `(timer + n) div 301` visitors have been spawned |
| Simulation.NPC.constructor | main.py:104-113 | `NPC()`: the fields of a new visitor on the lane drawn |
| Simulation.NPC.SetExitPath | main.py:200-201 | the visitor's path and cursor become the route `shortest_path_to_exit` gives for its position; nothing else changes |
| Simulation.NPC.Leave | main.py:156-157 | `self.state = "leaving"; self.set_exit_path()`: the fields become what `Agents.Depart` gives |
| Simulation.NPC.WalkToNextWaypoint | main.py:120-126 | one step along the path (also for leaving, main.py:189-195): the fields become what `Agents.Advance` gives |
| Simulation.NPC.PlayMachine | main.py:149-186 | a play changes the visitor's fields and the cash as `Agents.Play` says |
| Simulation.NPC.MoveOn | main.py:172-186 | after a loss streak the fields change as `Agents.MoveOn` says |
| Simulation.NPC.Update | main.py:115-198 | `update`: the visitor's fields and the cash become what `Agents.Step` gives; the visitor takes itself off `npcs` exactly when `Step` says it left; the machines and the timer are untouched |
| Simulation.World.constructor | main.py:34-60 | the state before the first tick: cash 1000, no machines, no visitors, and the timer at 0 as `main` starts it |
| Simulation.World.SpawnNpc | main.py:204-205 | `spawn_npc`: exactly one new visitor is appended on the lane drawn, and the rest of the state is unchanged |
| Simulation.World.PlaceMachine | main.py:208-220 | `place_machine`: when the footprint fits in `CASINO_RECT` and the cash covers the cost, exactly one machine with the type's stats is appended and exactly the cost is debited; otherwise machines and cash are unchanged |
| Simulation.World.UpdateVisitor | main.py:197-198 | one visitor's update keeps the world valid: a leaving visitor takes only itself off the list, and no other visitor changes |
| Simulation.World.UpdateAt | main.py:353-354 | one pass of the loop body: if the first `i` visitors of the snapshot have been updated as `TickAgents` says, with the list holding the survivors followed by the rest, then after the update of visitor `i` the same holds for `i + 1` |
| Simulation.World.UpdateNpcs | main.py:353-354 | `for npc in npcs[:]: npc.update()`: every visitor listed at the start is updated once, in order; fields and cash end as `TickAgents` says; the list ends as the visitors that did not leave, in order; the world stays valid |
| Simulation.World.SpawnTick | main.py:293-296 | the timer advances as `TimerStep` says; exactly when it fires, one fresh visitor with the `Spawned` fields on the lane drawn is appended to `npcs`, otherwise `npcs` is unchanged; cash and machines are untouched |
| Simulation.World.Tick | main.py:291-296 | one pass of the main loop, spawning and then updating the visitors (main.py:353-354): the timer advances as `TimerStep` says, and the world stays valid with the machines unchanged |

## Left out

- Drawing, windowing, fonts, the help menu, keyboard and mouse events, player movement and its clamping to the casino (main.py:6-13, 223-283, 298-350): presentation and input. `PlaceMachine` takes the player's position and the selected type as parameters. The model does not say how often a tick lets the player place a machine.
- `clock.tick(FPS)`: real-time pacing. Only the tick counter is modelled.
- The probability distribution of `random.random()` and `random.choice`: draws are inputs (`Draw`, and the `pick` of `NPC()`).
- Float vector arithmetic (`normalize`, `length`, `sqrt`): the position after a step that does not arrive is the input `stepped`. The decision to step or arrive is modelled exactly, on squared distances over exact reals. Float rounding is not modelled.
- pygame's `Vector2` equality, which `path.index` uses, compares with a tolerance. `Lists.IndexOf` compares exactly. On the program's lanes, whose waypoints are 50 apart, the two agree.
- `exit_point` (main.py:43) is defined but never used.
- Agents.Run: models a lone visitor against fixed machines and its own cash. How several visitors over several ticks interact is stated per tick by `TickAgents` and `World.UpdateNpcs`.
- Simulation.World.Tick: states the timer, the unchanged machines and that the world stays valid. The spawning is stated by `World.SpawnTick` and the visitor updates by `World.UpdateNpcs`, which `Tick` calls in that order. Their composition is not restated for `Tick`, because the list `UpdateNpcs` starts from includes the freshly spawned visitor, which `old` cannot name.
