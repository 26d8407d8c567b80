/**
 * One visitor's state machine, `NPC.update`, as a function from the visitor's fields,
 * the cash, the machines and the routes before a tick to the same after it.
 *
 * Randomness and float movement come in through a `Draw`:
 * - `roll` is the value of `random.random()`, compared against the win chance;
 * - `random.choice(xs)` picks `xs[pick % |xs|]`, so every element can be picked;
 * - `stepped` is where a step of length `Speed` towards the current target lands.
 *   Whether the visitor steps or arrives is decided here, exactly, from the distance.
 */
module Agents {
  import opened Wrappers
  import opened Lists
  import opened Geometry
  import opened Machines

  /** The values of `self.state`. */
  datatype Phase = WalkingPath | ToMachine | Playing | Leaving

  /** `speed` in `NPC.update`, and its square, against which squared distances compare. */
  const Speed: real := 1.5
  const SpeedSq: real := Speed * Speed

  /** `cost_to_play`. */
  const PlayCost: nat := 50

  /** Losses in a row after which a visitor gives up on a machine. */
  const LossLimit: nat := 3

  /** Machines a visitor gives up on before leaving. */
  const MaxMachines: nat := 2

  /** A value of `random.random()`. */
  type Roll = r: real | 0.0 <= r < 1.0

  /** What chance and float arithmetic decide in one tick. */
  datatype Draw = Draw(roll: Roll, pick: nat, stepped: Point)

  /** The fields of an `NPC`. */
  datatype Agent = Agent(
    path: seq<Point>,
    pathIndex: nat,
    pos: Point,
    state: Phase,
    target: Option<Machine>,
    cooldown: nat,
    losses: nat,
    machinesPlayed: nat,
    plays: nat)

  /**
   * What holds of a visitor between ticks: its cursor is on its path, it has a machine
   * whenever it heads for one or plays one, and while playing it has lost fewer than
   * `LossLimit` times in a row.
   */
  predicate Valid(a: Agent) {
    && a.pathIndex < |a.path|
    && (a.state.ToMachine? || a.state.Playing? ==> a.target.Some?)
    && (a.state.Playing? ==> a.losses < LossLimit)
  }

  /** The visitor's machine, if it has one, is one of `machines`. */
  predicate TargetIn(a: Agent, machines: seq<Machine>) {
    a.target.Some? ==> a.target.value in machines
  }

  /** `NPC.__init__` with the route `path` drawn. */
  function Spawned(path: seq<Point>): (a: Agent)
    requires |path| > 0
    ensures Valid(a) && TargetIn(a, [])
    ensures a.state == WalkingPath && a.pathIndex == 0 && a.pos == path[0]
  {
    Agent(path, 0, path[0], WalkingPath, None, 0, 0, 0, 0)
  }

  /** The visitor after a tick, the cash after it, and whether it left the casino. */
  datatype Outcome = Outcome(agent: Agent, money: int, removed: bool)

  /** One tick along the path: step towards the next waypoint, or reach it. */
  function Advance(a: Agent, stepped: Point): (r: Agent)
    requires a.pathIndex + 1 < |a.path|
    ensures r == a.(pos := r.pos, pathIndex := r.pathIndex)
    ensures r.pathIndex == a.pathIndex + 1 <==> SqDist(a.pos, a.path[a.pathIndex + 1]) <= SpeedSq
    ensures r.pathIndex == a.pathIndex + 1 ==> r.pos == a.pos
    ensures r.pathIndex != a.pathIndex + 1 ==> r.pathIndex == a.pathIndex && r.pos == stepped
  {
    if SqDist(a.pos, a.path[a.pathIndex + 1]) > SpeedSq then a.(pos := stepped)
    else a.(pathIndex := a.pathIndex + 1)
  }

  /** `self.state = "leaving"; self.set_exit_path()`. */
  function Depart(a: Agent, paths: seq<seq<Point>>): (r: Agent)
    requires ValidPaths(paths) && |paths| > 0
    ensures r.state == Leaving && r.pathIndex < |r.path|
  {
    var route := ExitRoute(a.pos, paths).value;
    a.(state := Leaving, path := paths[route.pathNo], pathIndex := route.start)
  }

  /**
   * Three losses in a row at `m`: count the machine as played, then leave after
   * `MaxMachines` machines, or go on to another machine drawn by `pick`, or leave when
   * there is no other machine.
   */
  function MoveOn(a: Agent, machines: seq<Machine>, paths: seq<seq<Point>>, m: Machine, pick: nat): (r: Agent)
    requires ValidPaths(paths) && |paths| > 0
    ensures r.machinesPlayed == a.machinesPlayed + 1 && r.cooldown == a.cooldown
    ensures r.state == ToMachine <==>
      a.machinesPlayed + 1 < MaxMachines && exists x :: x in machines && x != m
    ensures r.state == ToMachine ==>
      r.target.Some? && r.target.value in machines && r.target.value != m && r.losses == 0 && r.plays == 0
    ensures r.state != ToMachine ==> r == Depart(a.(machinesPlayed := a.machinesPlayed + 1), paths)
  {
    var a := a.(machinesPlayed := a.machinesPlayed + 1);
    if a.machinesPlayed >= MaxMachines then Depart(a, paths)
    else
      var available := Without(machines, m);
      if available == [] then Depart(a, paths)
      else
        assert available[0] in available;
        a.(target := Some(available[pick % |available|]), state := ToMachine, losses := 0, plays := 0)
  }

  /** A play at the machine once the visitor's own cooldown has run out. */
  function Play(a: Agent, money: int, machines: seq<Machine>, paths: seq<seq<Point>>, d: Draw): (r: Outcome)
    requires ValidPaths(paths) && |paths| > 0
    requires a.target.Some?
    ensures !r.removed && r.agent.cooldown == a.target.value.cooldown
    ensures money < PlayCost ==> r.money == money && r.agent.state == Leaving
    ensures money >= PlayCost ==>
      r.money == money - PlayCost + (if d.roll < a.target.value.winChance then a.target.value.winAmount else 0)
  {
    var m := a.target.value;
    var a := a.(cooldown := m.cooldown);
    if money < PlayCost then Outcome(Depart(a, paths), money, false)
    else
      var won := d.roll < m.winChance;
      var money := money - PlayCost + (if won then m.winAmount else 0);
      var a := a.(losses := if won then 0 else a.losses + 1, plays := a.plays + 1);
      if a.losses < LossLimit then Outcome(a, money, false)
      else Outcome(MoveOn(a, machines, paths, m, d.pick), money, false)
  }

  /**
   * `NPC.update`. Every tick keeps the visitor valid, keeps its machine among
   * `machines`, never takes the cash below zero, and removes only a leaving visitor.
   */
  function Step(a: Agent, money: int, machines: seq<Machine>, paths: seq<seq<Point>>, d: Draw): (r: Outcome)
    requires Valid(a) && ValidPaths(paths) && |paths| > 0
    ensures Valid(r.agent)
    ensures TargetIn(a, machines) ==> TargetIn(r.agent, machines)
    ensures money >= 0 ==> r.money >= 0
    ensures r.removed ==> a.state == Leaving
  {
    match a.state
    case WalkingPath =>
      if a.pathIndex < |a.path| - 1 then Outcome(Advance(a, d.stepped), money, false)
      else if machines != [] && money >= PlayCost then
        Outcome(a.(target := Some(machines[d.pick % |machines|]), state := ToMachine), money, false)
      else Outcome(Depart(a, paths), money, false)
    case ToMachine =>
      if SqDist(a.pos, a.target.value.pos) > SpeedSq then Outcome(a.(pos := d.stepped), money, false)
      else Outcome(a.(state := Playing, cooldown := 0, losses := 0, plays := 0), money, false)
    case Playing =>
      if a.cooldown > 0 then Outcome(a.(cooldown := a.cooldown - 1), money, false)
      else Play(a, money, machines, paths, d)
    case Leaving =>
      if a.pathIndex < |a.path| - 1 then Outcome(Advance(a, d.stepped), money, false)
      else Outcome(a, money, true)
  }

  /** The transitions a tick can make between states. */
  predicate Allowed(s: Phase, t: Phase) {
    match s
    case WalkingPath => !t.Playing?
    case ToMachine => t.ToMachine? || t.Playing?
    case Playing => !t.WalkingPath?
    case Leaving => t.Leaving?
  }

  /**
   * States follow walking in, then heading for and playing machines, then leaving:
   * no tick returns to the entry path, and a leaving visitor stays leaving.
   */
  lemma StepOrder(a: Agent, money: int, machines: seq<Machine>, paths: seq<seq<Point>>, d: Draw)
    requires Valid(a) && ValidPaths(paths) && |paths| > 0
    ensures Allowed(a.state, Step(a, money, machines, paths, d).agent.state)
  {
  }

  /** Walking in or out before the last waypoint: only the position or the cursor moves. */
  lemma WalkOn(a: Agent, money: int, machines: seq<Machine>, paths: seq<seq<Point>>, d: Draw)
    requires Valid(a) && ValidPaths(paths) && |paths| > 0
    requires a.state == WalkingPath || a.state == Leaving
    requires a.pathIndex < |a.path| - 1
    ensures var r := Step(a, money, machines, paths, d);
      && r.money == money && !r.removed
      && r.agent == a.(pos := r.agent.pos, pathIndex := r.agent.pathIndex)
      && (r.agent.pathIndex == a.pathIndex || r.agent.pathIndex == a.pathIndex + 1)
      && r.agent.pathIndex <= |a.path| - 1
      && (r.agent.pathIndex == a.pathIndex + 1 <==> SqDist(a.pos, a.path[a.pathIndex + 1]) <= SpeedSq)
      && (r.agent.pathIndex == a.pathIndex + 1 ==> r.agent.pos == a.pos)
  {
  }

  /**
   * At the end of the entry path the visitor heads for a machine of `machines` exactly
   * when there is one and the cash is at least `PlayCost`; otherwise it leaves by the
   * nearest route. The cash does not change.
   */
  lemma WalkEnd(a: Agent, money: int, machines: seq<Machine>, paths: seq<seq<Point>>, d: Draw)
    requires Valid(a) && ValidPaths(paths) && |paths| > 0
    requires a.state == WalkingPath && a.pathIndex == |a.path| - 1
    ensures var r := Step(a, money, machines, paths, d);
      && r.money == money && !r.removed
      && (r.agent.state == ToMachine <==> machines != [] && money >= PlayCost)
      && (r.agent.state == ToMachine ==>
            r.agent.target.Some? && r.agent.target.value in machines
            && r.agent == a.(state := ToMachine, target := r.agent.target))
      && (r.agent.state != ToMachine ==> r.agent == Depart(a, paths))
  {
  }

  /** At the end of the exit path the visitor is removed and nothing else changes. */
  lemma LeaveEnd(a: Agent, money: int, machines: seq<Machine>, paths: seq<seq<Point>>, d: Draw)
    requires Valid(a) && ValidPaths(paths) && |paths| > 0
    requires a.state == Leaving && a.pathIndex == |a.path| - 1
    ensures Step(a, money, machines, paths, d) == Outcome(a, money, true)
  {
  }

  /** Heading for a machine: step, or arrive and start a session with cleared counters. */
  lemma ApproachMachine(a: Agent, money: int, machines: seq<Machine>, paths: seq<seq<Point>>, d: Draw)
    requires Valid(a) && ValidPaths(paths) && |paths| > 0
    requires a.state == ToMachine
    ensures var r := Step(a, money, machines, paths, d);
      && r.money == money && !r.removed
      && (SqDist(a.pos, a.target.value.pos) > SpeedSq ==> r.agent == a.(pos := d.stepped))
      && (SqDist(a.pos, a.target.value.pos) <= SpeedSq ==>
            r.agent == a.(state := Playing, cooldown := 0, losses := 0, plays := 0))
  {
  }

  /** While the visitor's own cooldown runs, a tick only counts it down. */
  lemma WaitOutCooldown(a: Agent, money: int, machines: seq<Machine>, paths: seq<seq<Point>>, d: Draw)
    requires Valid(a) && ValidPaths(paths) && |paths| > 0
    requires a.state == Playing && a.cooldown > 0
    ensures Step(a, money, machines, paths, d) == Outcome(a.(cooldown := a.cooldown - 1), money, false)
  {
  }

  /**
   * With less than `PlayCost` in the till the visitor leaves by the nearest route
   * before any draw: the cash is unchanged, and the cooldown has already been set to
   * the machine's.
   */
  lemma PlayWithoutCash(a: Agent, money: int, machines: seq<Machine>, paths: seq<seq<Point>>, d: Draw)
    requires Valid(a) && ValidPaths(paths) && |paths| > 0
    requires a.state == Playing && a.cooldown == 0 && money < PlayCost
    ensures var r := Step(a, money, machines, paths, d);
      var route := ExitRoute(a.pos, paths).value;
      && r.money == money && !r.removed
      && r.agent == a.(state := Leaving, path := paths[route.pathNo], pathIndex := route.start,
                       cooldown := a.target.value.cooldown)
  {
  }

  /**
   * A play costs `PlayCost` and pays the machine's win amount on a win; the cash stays
   * non-negative. A win clears the loss streak, a loss lengthens it, and the play is
   * counted; the cooldown restarts at the machine's.
   */
  lemma PlayRound(a: Agent, money: int, machines: seq<Machine>, paths: seq<seq<Point>>, d: Draw)
    requires Valid(a) && ValidPaths(paths) && |paths| > 0
    requires a.state == Playing && a.cooldown == 0 && money >= PlayCost
    ensures var r := Step(a, money, machines, paths, d);
      var m := a.target.value;
      var won := d.roll < m.winChance;
      && r.money == money - PlayCost + (if won then m.winAmount else 0)
      && r.money >= 0 && !r.removed
      && r.agent.cooldown == m.cooldown
      && (won ==> r.agent == a.(cooldown := m.cooldown, losses := 0, plays := a.plays + 1))
      && (!won && a.losses + 1 < LossLimit ==>
            r.agent == a.(cooldown := m.cooldown, losses := a.losses + 1, plays := a.plays + 1))
  {
  }

  /**
   * The loss that completes a streak of `LossLimit` costs the machine: the visitor
   * counts it, then leaves if it has given up on `MaxMachines` machines, heads for one
   * of the machines that differ from it if there is one (with fresh counters), and
   * leaves otherwise.
   */
  lemma LossStreak(a: Agent, money: int, machines: seq<Machine>, paths: seq<seq<Point>>, d: Draw)
    requires Valid(a) && ValidPaths(paths) && |paths| > 0
    requires a.state == Playing && a.cooldown == 0 && money >= PlayCost
    requires !(d.roll < a.target.value.winChance) && a.losses + 1 == LossLimit
    ensures var r := Step(a, money, machines, paths, d);
      var m := a.target.value;
      var gaveUp := a.machinesPlayed + 1;
      var route := ExitRoute(a.pos, paths).value;
      var left := a.(state := Leaving, path := paths[route.pathNo], pathIndex := route.start,
                     cooldown := m.cooldown, losses := LossLimit, plays := a.plays + 1,
                     machinesPlayed := gaveUp);
      && r.money == money - PlayCost && !r.removed
      && r.agent.machinesPlayed == gaveUp
      && (gaveUp >= MaxMachines ==> r.agent == left)
      && (gaveUp < MaxMachines && Without(machines, m) == [] ==> r.agent == left)
      && (gaveUp < MaxMachines && Without(machines, m) != [] ==>
            && r.agent.state == ToMachine
            && r.agent.target.Some? && r.agent.target.value in machines && r.agent.target.value != m
            && r.agent == a.(state := ToMachine, target := r.agent.target, cooldown := m.cooldown,
                             losses := 0, plays := 0, machinesPlayed := gaveUp))
  {
  }

  /** Every machine other than the abandoned one can be the next one. */
  lemma {:induction false} AnyOtherMachineCanBeNext(a: Agent, money: int, machines: seq<Machine>,
                                                    paths: seq<seq<Point>>, d: Draw, next: Machine)
    requires Valid(a) && ValidPaths(paths) && |paths| > 0
    requires a.state == Playing && a.cooldown == 0 && money >= PlayCost
    requires !(d.roll < a.target.value.winChance) && a.losses + 1 == LossLimit
    requires a.machinesPlayed + 1 < MaxMachines
    requires next in machines && next != a.target.value
    ensures Step(a, money, machines, paths, d.(pick := IndexOf(Without(machines, a.target.value), next)))
              .agent.target == Some(next)
  {
    var available := Without(machines, a.target.value);
    var i := IndexOf(available, next);
    var d' := d.(pick := i);
    assert d'.roll == d.roll;
    assert available[d'.pick % |available|] == next by {
      SmallRemainder(i, |available|);
    }
    assert Step(a, money, machines, paths, d') == Play(a, money, machines, paths, d');
  }

  /** A pick below the number of machines selects that machine; used by `AnyOtherMachineCanBeNext`. */
  lemma SmallRemainder(i: nat, n: nat)
    requires i < n
    ensures i % n == i
  {
  }

  /**
   * A lone visitor over successive ticks with the draws `ds`, until it is removed.
   * Over any number of ticks it stays valid, its machine stays among `machines`, and
   * the cash never goes below zero.
   */
  function Run(a: Agent, money: int, machines: seq<Machine>, paths: seq<seq<Point>>, ds: seq<Draw>): (r: Outcome)
    requires Valid(a) && ValidPaths(paths) && |paths| > 0
    ensures Valid(r.agent)
    ensures TargetIn(a, machines) ==> TargetIn(r.agent, machines)
    ensures money >= 0 ==> r.money >= 0
    decreases ds
  {
    if ds == [] then Outcome(a, money, false)
    else
      var r := Step(a, money, machines, paths, ds[0]);
      if r.removed then r else Run(r.agent, r.money, machines, paths, ds[1..])
  }

  /**
   * Once leaving, always leaving: the visitor keeps its exit path, its cursor only
   * moves forward and stays on the path, and the cash is not touched.
   */
  lemma {:induction false} LeavingIsFinal(a: Agent, money: int, machines: seq<Machine>,
                                          paths: seq<seq<Point>>, ds: seq<Draw>)
    requires Valid(a) && ValidPaths(paths) && |paths| > 0
    requires a.state == Leaving
    ensures var r := Run(a, money, machines, paths, ds);
      && r.agent.state == Leaving && r.money == money
      && r.agent.path == a.path
      && a.pathIndex <= r.agent.pathIndex <= |a.path| - 1
    decreases ds
  {
    if ds != [] {
      var r := Step(a, money, machines, paths, ds[0]);
      if !r.removed {
        WalkOn(a, money, machines, paths, ds[0]);
        LeavingIsFinal(r.agent, r.money, machines, paths, ds[1..]);
      }
    }
  }

  /** The cash after a run of outcomes that started with `money`. */
  function CashAfter(money: int, outs: seq<Outcome>): (r: int) {
    if outs == [] then money else outs[|outs| - 1].money
  }

  /**
   * `for npc in npcs[:]: npc.update()` on the visitors' fields, for the first `n` of
   * them: each is stepped once, in order, with its own draw, against the cash the ones
   * before it left. The pass keeps every visitor valid with its machine among
   * `machines`, and keeps the cash non-negative.
   */
  function TickAgents(agents: seq<Agent>, money: int, machines: seq<Machine>, paths: seq<seq<Point>>,
                      draws: nat -> Draw, n: nat): (outs: seq<Outcome>)
    requires n <= |agents| && forall k :: 0 <= k < |agents| ==> Valid(agents[k])
    requires ValidPaths(paths) && |paths| > 0
    ensures |outs| == n
    ensures forall k :: 0 <= k < n ==> Valid(outs[k].agent)
    ensures forall k :: 0 <= k < n ==> TargetIn(agents[k], machines) ==> TargetIn(outs[k].agent, machines)
    ensures forall k :: 0 <= k < n ==> outs[k].removed ==> agents[k].state == Leaving
    ensures money >= 0 ==> CashAfter(money, outs) >= 0
  {
    if n == 0 then []
    else
      var outs := TickAgents(agents, money, machines, paths, draws, n - 1);
      outs + [Step(agents[n - 1], CashAfter(money, outs), machines, paths, draws(n - 1))]
  }
}
