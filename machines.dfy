/**
 * The machine catalog, the machines the player places, and the casino floor they
 * must fit on.
 */
module Machines {
  import opened Geometry

  /** The keys of `machine_types`. */
  datatype Kind = Slot | Roulette | Blackjack

  /** One entry of `machine_types`. */
  datatype MachineType = MachineType(cost: nat, winChance: real, winAmount: nat, cooldown: nat)

  /** `machine_types[kind]`. */
  function Catalog(kind: Kind): (t: MachineType)
    ensures t.cost > 0 && t.cooldown > 0
    ensures 0.0 < t.winChance < 1.0
  {
    match kind
    case Slot => MachineType(200, 0.4, 50, 60)
    case Roulette => MachineType(500, 0.3, 150, 90)
    case Blackjack => MachineType(800, 0.5, 300, 120)
  }

  /**
   * A placed machine: the dictionary `place_machine` appends. Two machines with the
   * same fields are equal, as the dictionaries are under `!=`.
   */
  datatype Machine = Machine(pos: Point, kind: Kind, winChance: real, winAmount: nat, cooldown: nat)

  /** The machine of type `kind` placed at `pos`: its stats are copied from the catalog. */
  function NewMachine(kind: Kind, pos: Point): (m: Machine)
    ensures m.pos == pos && m.kind == kind
    ensures 0.0 < m.winChance < 1.0 && m.cooldown > 0
  {
    var t := Catalog(kind);
    Machine(pos, kind, t.winChance, t.winAmount, t.cooldown)
  }

  /** A `pygame.Rect` with integer corner and size. */
  datatype Rect = Rect(x: int, y: int, w: int, h: int) {
    /** `Rect.contains`: `r` lies entirely inside this rectangle. */
    predicate Contains(r: Rect) {
      && x <= r.x && y <= r.y
      && x + w >= r.x + r.w && y + h >= r.y + r.h
      && x + w > r.x && y + h > r.y
    }
  }

  /** `CASINO_RECT`. */
  const CasinoRect := Rect(50, 300, 700, 200)

  /** Each side of `MACHINE_SIZE`. */
  const MachineSize := 50

  /**
   * The footprint of a machine placed with its corner at `(px, py)` lies on the floor.
   * The corners that fit form the box [50, 700] x [300, 450].
   */
  predicate Fits(px: int, py: int)
    ensures Fits(px, py) <==> 50 <= px <= 700 && 300 <= py <= 450
  {
    CasinoRect.Contains(Rect(px, py, MachineSize, MachineSize))
  }
}
