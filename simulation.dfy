/**
 * The casino as the program runs it: the routes, the module-level `money`,
 * `machines` and `npcs`, the `NPC` objects, machine placement, the spawn timer and
 * the per-tick update of every visitor.
 */
module Simulation {
  import opened Wrappers
  import opened Lists
  import opened Geometry
  import opened Machines
  import opened Agents

  /** One route: twelve waypoints at height `y`, for x = 100, 150, ..., 650. */
  function Lane(y: real): (s: seq<Point>)
    ensures |s| == 12
    ensures forall i :: 0 <= i < 12 ==> s[i] == Point((100 + 50 * i) as real, y)
  {
    seq(12, i => Point((100 + 50 * i) as real, y))
  }

  /** `paths`: the routes at heights 480, 420 and 360. */
  function Paths(): (ps: seq<seq<Point>>)
    ensures |ps| == 3 && ValidPaths(ps)
  {
    [Lane(480.0), Lane(420.0), Lane(360.0)]
  }

  /** The starting value of `money`. */
  const StartMoney: int := 1000

  /** `FPS`, and the timer value `spawn_timer` must exceed for a visitor to appear. */
  const FPS: nat := 60
  const SpawnInterval: nat := FPS * 5

  /**
   * One tick of the spawn timer in `main`: count the tick, and once the count
   * exceeds `SpawnInterval` spawn a visitor and start again from zero.
   */
  function TimerStep(timer: nat): (r: (nat, bool))
    ensures r.1 <==> r.0 == 0
    ensures !r.1 ==> r.0 == timer + 1
    ensures timer <= SpawnInterval ==> r.0 <= SpawnInterval
  {
    if timer + 1 > SpawnInterval then (0, true) else (timer + 1, false)
  }

  /** The timer value and the number of visitors spawned after `n` ticks from `timer`. */
  function AfterTicks(timer: nat, n: nat): (r: (nat, nat))
    ensures r.1 <= n
    ensures timer <= SpawnInterval ==> r.0 <= SpawnInterval
    decreases n
  {
    if n == 0 then (timer, 0)
    else
      var (t, spawned) := TimerStep(timer);
      var (t', count) := AfterTicks(t, n - 1);
      (t', count + if spawned then 1 else 0)
  }

  /**
   * The cadence: from a timer at `timer` (at most `SpawnInterval`), a visitor appears
   * once every `SpawnInterval + 1` ticks and the timer stays at most `SpawnInterval`.
   */
  lemma {:induction false} SpawnCadence(timer: nat, n: nat)
    requires timer <= SpawnInterval
    ensures AfterTicks(timer, n) == ((timer + n) % (SpawnInterval + 1), (timer + n) / (SpawnInterval + 1))
    decreases n
  {
    if n > 0 {
      var (t, spawned) := TimerStep(timer);
      SpawnCadence(t, n - 1);
      if spawned {
        assert timer + n == (SpawnInterval + 1) + (n - 1);
        PeriodShift(n - 1);
      } else {
        assert t == timer + 1;
      }
    }
  }

  /** One spawn period more leaves the phase and adds one spawn. */
  lemma PeriodShift(a: nat)
    ensures (SpawnInterval + 1 + a) % (SpawnInterval + 1) == a % (SpawnInterval + 1)
    ensures (SpawnInterval + 1 + a) / (SpawnInterval + 1) == a / (SpawnInterval + 1) + 1
  {
  }

  /** A visitor: an `NPC` object. */
  class NPC {
    var path: seq<Point>
    var pathIndex: nat
    var pos: Point
    var state: Phase
    var target: Option<Machine>
    var cooldown: nat
    var losses: nat
    var machinesPlayed: nat
    var plays: nat

    /** This visitor's fields as a value. */
    function Fields(): Agent
      reads this
    {
      Agent(path, pathIndex, pos, state, target, cooldown, losses, machinesPlayed, plays)
    }

    ghost predicate Valid()
      reads this
    {
      Agents.Valid(Fields())
    }

    /** `NPC()`: a new visitor at the start of the route `random.choice(paths)`. */
    constructor (pick: nat)
      ensures Fields() == Spawned(Paths()[pick % |Paths()|])
      ensures Valid()
    {
      var route := Paths()[pick % |Paths()|];
      path := route;
      pathIndex := 0;
      pos := route[0];
      state := WalkingPath;
      target := None;
      cooldown := 0;
      losses := 0;
      machinesPlayed := 0;
      plays := 0;
    }

    /** `set_exit_path`: join the nearest route where it comes closest. */
    method SetExitPath()
      modifies this
      ensures var route := ExitRoute(old(pos), Paths()).value;
        Fields() == old(Fields()).(path := Paths()[route.pathNo], pathIndex := route.start)
    {
      var best := ShortestPathToExit(pos, Paths());
      path := Paths()[best.value.pathNo];
      pathIndex := best.value.start;
    }

    /** Turn to leave the casino along the nearest exit route. */
    method Leave()
      modifies this
      ensures Fields() == Depart(old(Fields()), Paths())
    {
      state := Leaving;
      SetExitPath();
    }

    /** One tick along the path: step towards the next waypoint, or reach it. */
    method WalkToNextWaypoint(stepped: Point)
      requires pathIndex < |path| - 1
      modifies this
      ensures Fields() == Advance(old(Fields()), stepped)
    {
      var next := path[pathIndex + 1];
      if SqDist(pos, next) > SpeedSq {
        pos := stepped;
      } else {
        pathIndex := pathIndex + 1;
      }
    }

    /** The `playing` branch once the visitor's own cooldown is zero. */
    method PlayMachine(world: World, d: Draw)
      requires target.Some?
      modifies this, world`money
      ensures var r := Play(old(Fields()), old(world.money), world.machines, Paths(), d);
        Fields() == r.agent && world.money == r.money
    {
      var m := target.value;
      cooldown := m.cooldown;
      if world.money >= PlayCost {
        world.money := world.money - PlayCost;
      } else {
        Leave();
        return;
      }
      if d.roll < m.winChance {
        world.money := world.money + m.winAmount;
        losses := 0;
      } else {
        losses := losses + 1;
      }
      plays := plays + 1;
      if losses >= LossLimit {
        MoveOn(world.machines, m, d.pick);
      }
    }

    /** The visitor's third loss in a row at `m`. */
    method MoveOn(machines: seq<Machine>, m: Machine, pick: nat)
      modifies this
      ensures Fields() == Agents.MoveOn(old(Fields()), machines, Paths(), m, pick)
    {
      machinesPlayed := machinesPlayed + 1;
      if machinesPlayed >= MaxMachines {
        Leave();
      } else {
        var available := Without(machines, m);
        if available != [] {
          target := Some(available[pick % |available|]);
          state := ToMachine;
          losses := 0;
          plays := 0;
        } else {
          Leave();
        }
      }
    }

    /**
     * `update`: one tick of this visitor against `world`. Its fields and the cash
     * become what `Step` gives; it takes itself off `world.npcs` exactly when `Step`
     * says it left; the machines and the spawn timer are not touched.
     */
    method Update(world: World, d: Draw)
      requires Valid()
      modifies this, world
      ensures var r := Step(old(Fields()), old(world.money), old(world.machines), Paths(), d);
        && Fields() == r.agent
        && world.money == r.money
        && world.npcs == (if r.removed then RemoveFirst(old(world.npcs), this) else old(world.npcs))
      ensures world.machines == old(world.machines) && world.spawnTimer == old(world.spawnTimer)
      ensures Valid()
    {
      if state == WalkingPath {
        if pathIndex < |path| - 1 {
          WalkToNextWaypoint(d.stepped);
        } else if world.machines != [] && world.money >= PlayCost {
          target := Some(world.machines[d.pick % |world.machines|]);
          state := ToMachine;
        } else {
          Leave();
        }
      } else if state == ToMachine {
        if SqDist(pos, target.value.pos) > SpeedSq {
          pos := d.stepped;
        } else {
          state := Playing;
          cooldown := 0;
          losses := 0;
          plays := 0;
        }
      } else if state == Playing {
        if cooldown > 0 {
          cooldown := cooldown - 1;
        } else {
          PlayMachine(world, d);
        }
      } else {
        if pathIndex < |path| - 1 {
          WalkToNextWaypoint(d.stepped);
        } else if this in world.npcs {
          world.npcs := RemoveFirst(world.npcs, this);
        }
      }
    }
  }

  /** The visitors' fields, in list order. */
  ghost function FieldsOf(ns: seq<NPC>): (fs: seq<Agent>)
    reads ns
    ensures |fs| == |ns|
    ensures forall k :: 0 <= k < |ns| ==> fs[k] == ns[k].Fields()
  {
    if ns == [] then [] else FieldsOf(ns[..|ns| - 1]) + [ns[|ns| - 1].Fields()]
  }

  /** The visitors of `ns` whose outcome in `outs` did not remove them, in order. */
  function Survivors<T>(ns: seq<T>, outs: seq<Outcome>): (r: seq<T>)
    requires |outs| <= |ns|
    ensures forall x :: x in r ==> x in ns[..|outs|]
    decreases |outs|
  {
    if outs == [] then []
    else
      var n := |outs| - 1;
      var kept := Survivors(ns, outs[..n]);
      if outs[n].removed then kept else kept + [ns[n]]
  }

  lemma SurvivorsNext<T>(ns: seq<T>, outs: seq<Outcome>, r: Outcome)
    requires |outs| < |ns|
    ensures Survivors(ns, outs + [r]) ==
      if r.removed then Survivors(ns, outs) else Survivors(ns, outs) + [ns[|outs|]]
  {
    assert (outs + [r])[..|outs|] == outs;
  }

  /**
   * The list a visitor at position `|outs|` of `ns` updates: dropping it, when it
   * leaves, or keeping it, leaves the survivors so far followed by the visitors not yet
   * updated.
   */
  lemma ListingAfter<T>(ns: seq<T>, outs: seq<Outcome>, r: Outcome)
    requires Distinct(ns) && |outs| < |ns|
    ensures var listed := Survivors(ns, outs) + ns[|outs|..];
      (if r.removed then RemoveFirst(listed, ns[|outs|]) else listed)
        == Survivors(ns, outs + [r]) + ns[|outs| + 1..]
  {
    var i, kept := |outs|, Survivors(ns, outs);
    var rest := ns[i + 1..];
    assert ns[i..] == [ns[i]] + rest;
    assert kept + ns[i..] == kept + [ns[i]] + rest;
    assert ns[i] !in kept by {
      DistinctPrefix(ns, i);
    }
    SurvivorsNext(ns, outs, r);
    if r.removed {
      RemoveFirstSkips(kept, ns[i], rest);
    }
  }

  /** The module-level state of the program. */
  class World {
    var money: int
    var machines: seq<Machine>
    var npcs: seq<NPC>
    var spawnTimer: nat

    /**
     * The cash is never negative, the timer never passes `SpawnInterval`, no visitor is
     * listed twice, and every visitor is valid with its machine among `machines`.
     */
    ghost predicate Valid()
      reads this, npcs
    {
      && money >= 0
      && spawnTimer <= SpawnInterval
      && Distinct(npcs)
      && forall n :: n in npcs ==> n.Valid() && TargetIn(n.Fields(), machines)
    }

    /** The program's state before the first tick. */
    constructor ()
      ensures Valid()
      ensures money == StartMoney && machines == [] && npcs == [] && spawnTimer == 0
    {
      money := StartMoney;
      machines := [];
      npcs := [];
      spawnTimer := 0;
    }

    /** `spawn_npc`: append a new visitor on the route drawn by `pick`. */
    method SpawnNpc(pick: nat)
      requires Valid()
      modifies this
      ensures Valid()
      ensures |npcs| == |old(npcs)| + 1 && npcs[..|old(npcs)|] == old(npcs)
      ensures fresh(npcs[|old(npcs)|])
      ensures npcs[|old(npcs)|].Fields() == Spawned(Paths()[pick % |Paths()|])
      ensures money == old(money) && machines == old(machines) && spawnTimer == old(spawnTimer)
    {
      var npc := new NPC(pick);
      DistinctSnoc(npcs, npc);
      npcs := npcs + [npc];
    }

    /**
     * `place_machine` with the selected type `kind` and the player at `(px, py)`: when
     * the footprint fits on the casino floor and the cash covers the type's cost, one
     * machine with the type's stats is appended and exactly the cost is debited;
     * otherwise nothing changes.
     */
    method PlaceMachine(kind: Kind, px: int, py: int)
      requires Valid()
      modifies this
      ensures Valid()
      ensures var placed := Fits(px, py) && old(money) >= Catalog(kind).cost;
        && machines == (if placed then old(machines) + [NewMachine(kind, Point(px as real, py as real))]
                        else old(machines))
        && money == (if placed then old(money) - Catalog(kind).cost else old(money))
      ensures npcs == old(npcs) && spawnTimer == old(spawnTimer)
    {
      var cost := Catalog(kind).cost;
      if Fits(px, py) && money >= cost {
        machines := machines + [NewMachine(kind, Point(px as real, py as real))];
        money := money - cost;
      }
    }

    /**
     * `for npc in npcs[:]: npc.update()`: every visitor listed at the start is updated
     * once, in order, with the draw of its position; fields and cash end as
     * `TickAgents` gives, and exactly the visitors that left are off the list.
     */
    method UpdateNpcs(draws: nat -> Draw)
      requires Valid()
      modifies this, npcs
      ensures Valid()
      ensures var outs := TickAgents(old(FieldsOf(npcs)), old(money), old(machines), Paths(), draws, |old(npcs)|);
        && money == CashAfter(old(money), outs)
        && (forall k :: 0 <= k < |outs| ==> old(npcs)[k].Fields() == outs[k].agent)
        && npcs == Survivors(old(npcs), outs)
      ensures machines == old(machines) && spawnTimer == old(spawnTimer)
    {
      var snapshot := npcs;
      ghost var before := FieldsOf(snapshot);
      ghost var outs: seq<Outcome> := [];
      ghost var kept: seq<NPC> := [];
      for i := 0 to |snapshot|
        invariant Progress(snapshot, before, old(money), draws, i, outs, kept)
        invariant machines == old(machines) && spawnTimer == old(spawnTimer)
      {
        outs, kept := UpdateAt(snapshot, i, before, old(money), outs, kept, draws);
      }
      assert snapshot[|snapshot|..] == [];
    }

    /**
     * Where the loop of `UpdateNpcs` stands after the first `i` visitors of `snapshot`,
     * whose fields were `before`, have been updated starting from the cash `cash`: the
     * world is valid, the visitors updated so far hold the fields and the cash
     * `TickAgents` gives, the others are untouched, and the list holds the survivors so
     * far followed by the visitors not yet updated.
     */
    ghost predicate Progress(snapshot: seq<NPC>, before: seq<Agent>, cash: int, draws: nat -> Draw,
                             i: nat, outs: seq<Outcome>, kept: seq<NPC>)
      reads this, npcs, snapshot
    {
      && Valid() && Distinct(snapshot) && i <= |snapshot| == |before|
      && (forall k :: 0 <= k < |before| ==> Agents.Valid(before[k]))
      && outs == TickAgents(before, cash, machines, Paths(), draws, i)
      && money == CashAfter(cash, outs)
      && (forall k :: i <= k < |snapshot| ==> snapshot[k].Fields() == before[k])
      && (forall k :: 0 <= k < i ==> snapshot[k].Fields() == outs[k].agent)
      && kept == Survivors(snapshot, outs)
      && npcs == kept + snapshot[i..]
    }

    /**
     * `npc.update()` for the visitor at position `i` of `snapshot`, a list of distinct
     * visitors, seen from the world: the state stays valid, since a visitor that leaves
     * takes only itself off the list, and no other visitor of `snapshot` changes.
     */
    method UpdateVisitor(snapshot: seq<NPC>, i: nat, d: Draw)
      requires Valid() && Distinct(snapshot) && i < |snapshot| && snapshot[i] in npcs
      modifies this, snapshot[i]
      ensures Valid()
      ensures var r := Step(old(snapshot[i].Fields()), old(money), machines, Paths(), d);
        && snapshot[i].Fields() == r.agent && money == r.money
        && npcs == (if r.removed then RemoveFirst(old(npcs), snapshot[i]) else old(npcs))
      ensures forall k :: 0 <= k < |snapshot| && k != i ==> snapshot[k].Fields() == old(snapshot[k].Fields())
      ensures machines == old(machines) && spawnTimer == old(spawnTimer)
    {
      var npc := snapshot[i];
      ghost var listed := npcs;
      npc.Update(this, d);
      RemoveFirstDistinct(listed, npc);
      forall n | n in npcs ensures n.Valid() && TargetIn(n.Fields(), machines) {
        if n != npc {
          assert n in listed;
        }
      }
      forall k | 0 <= k < |snapshot| && k != i
        ensures snapshot[k].Fields() == old(snapshot[k].Fields())
      {
        assert snapshot[k] != npc;
      }
    }

    /** The body of the loop of `UpdateNpcs` for the visitor at position `i` of `snapshot`. */
    method UpdateAt(snapshot: seq<NPC>, i: nat, ghost before: seq<Agent>, ghost cash: int,
                    ghost outs: seq<Outcome>, ghost kept: seq<NPC>, draws: nat -> Draw)
      returns (ghost outs': seq<Outcome>, ghost kept': seq<NPC>)
      requires Progress(snapshot, before, cash, draws, i, outs, kept) && i < |snapshot|
      modifies this, snapshot[i]
      ensures Progress(snapshot, before, cash, draws, i + 1, outs', kept')
      ensures machines == old(machines) && spawnTimer == old(spawnTimer)
    {
      var npc := snapshot[i];
      assert npcs[|kept|] == npc;
      ghost var r := Step(before[i], money, machines, Paths(), draws(i));
      ListingAfter(snapshot, outs, r);
      UpdateVisitor(snapshot, i, draws(i));
      outs' := outs + [r];
      kept' := Survivors(snapshot, outs');
      assert outs' == TickAgents(before, cash, machines, Paths(), draws, i + 1);
      forall k | i + 1 <= k < |snapshot| ensures snapshot[k].Fields() == before[k] {
        assert old(snapshot[k].Fields()) == before[k];
      }
      forall k | 0 <= k < i + 1 ensures snapshot[k].Fields() == outs'[k].agent {
        if k < i {
          assert old(snapshot[k].Fields()) == outs[k].agent;
        }
      }
    }

    /**
     * The spawn timer's part of a pass of the loop in `main`: the timer advances as
     * `TimerStep` says, and exactly when `TimerStep` fires one fresh visitor on the lane
     * drawn by `spawnPick` is appended; the cash and the machines are not touched.
     */
    method SpawnTick(spawnPick: nat)
      requires Valid()
      modifies this
      ensures Valid()
      ensures spawnTimer == TimerStep(old(spawnTimer)).0
      ensures TimerStep(old(spawnTimer)).1 ==>
        && |npcs| == |old(npcs)| + 1 && npcs[..|old(npcs)|] == old(npcs)
        && fresh(npcs[|old(npcs)|])
        && npcs[|old(npcs)|].Fields() == Spawned(Paths()[spawnPick % |Paths()|])
      ensures !TimerStep(old(spawnTimer)).1 ==> npcs == old(npcs)
      ensures money == old(money) && machines == old(machines)
    {
      spawnTimer := spawnTimer + 1;
      if spawnTimer > SpawnInterval {
        spawnTimer := 0;
        SpawnNpc(spawnPick);
      }
    }

    /**
     * One pass of the loop in `main` that this model covers: the spawn timer ticks
     * (spawning a visitor on the route drawn by `spawnPick` when it fires), then every
     * visitor is updated.
     */
    method Tick(spawnPick: nat, draws: nat -> Draw)
      requires Valid()
      modifies this, npcs
      ensures Valid()
      ensures machines == old(machines)
      ensures spawnTimer == TimerStep(old(spawnTimer)).0
    {
      SpawnTick(spawnPick);
      UpdateNpcs(draws);
    }
  }
}
