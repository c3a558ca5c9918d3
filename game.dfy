/** The body-part types of the game's constants module, kept apart so that their
    names do not clash with the action of the same name (heal, rangedAttack). */
module Parts {
  datatype PartType = Move | Work | Carry | Attack | RangedAttack | Heal | Tough
}

/** The game objects a tick sees, the actions the bot can issue, and the engine
    services it consults, reduced to what the bot's decisions read. */
module Game {
  import opened Seqs
  import Parts

  type Id = nat

  datatype BodyPart = BodyPart(kind: Parts.PartType, hits: nat)

  /** A creep: `freeCapacity` is its free energy capacity. */
  datatype Creep = Creep(id: Id, my: bool, body: seq<BodyPart>, hits: nat, hitsMax: nat, freeCapacity: nat)

  datatype StructureSpawn = StructureSpawn(id: Id, my: bool)

  /** A tower: `energy` is the energy in its store. */
  datatype StructureTower = StructureTower(id: Id, my: bool, energy: nat)

  /** A container: `usedEnergy` is its stored energy, `ticksToDecay` its decay
      countdown when the engine reports one. */
  datatype StructureContainer = StructureContainer(id: Id, my: bool, usedEnergy: nat, ticksToDecay: Option<nat>)

  /** Everything visible in one tick, in the engine's listing order, and the tick number. */
  datatype World = World(
    spawns: seq<StructureSpawn>,
    towers: seq<StructureTower>,
    creeps: seq<Creep>,
    containers: seq<StructureContainer>,
    ticks: nat)

  /** The status an action call returns; only "not in range" steers the bot. */
  datatype Status = Ok | ErrNotInRange | ErrOther(code: int)

  /** One of the engine's eight movement directions. */
  type Direction = d: nat | 1 <= d <= 8 witness 1

  /** An engine call the bot issues; `actor` is the id of the object that acts. */
  datatype Action =
    | SpawnCreep(actor: Id, body: seq<Parts.PartType>)
    | Withdraw(actor: Id, target: Id)
    | Transfer(actor: Id, target: Id)
    | MoveTo(actor: Id, target: Id)
    | MoveDir(actor: Id, direction: Direction)
    | Heal(actor: Id, target: Id)
    | RangedHeal(actor: Id, target: Id)
    | RangedAttack(actor: Id, target: Id)
    | TowerAttack(actor: Id, target: Id)
    | TowerHeal(actor: Id, target: Id)

  /** The engine's services for one tick. `range(a, b)` is the range from object a
      to object b; `path(a, b)` the path length from a to b, None when no path
      exists; `outcome(a)` the status the engine returns for action a;
      `fleeStep(c, threats, r)` the direction of the first step of a flee path for
      creep c away from the threats at range r, None when the path is empty. */
  datatype Env = Env(
    range: (Id, Id) -> nat,
    path: (Id, Id) -> Option<nat>,
    outcome: Action -> Status,
    fleeStep: (Id, seq<Creep>, nat) -> Option<Direction>)

  const WORKER_BODY: seq<Parts.PartType> := [Parts.Move, Parts.Move, Parts.Move, Parts.Carry, Parts.Carry]
  const BUILDER_BODY: seq<Parts.PartType> := [Parts.Move, Parts.Move, Parts.Carry, Parts.Work, Parts.Carry, Parts.Work]
  const HEALER_BODY: seq<Parts.PartType> :=
    [Parts.Move, Parts.Move, Parts.Move, Parts.Move, Parts.Move, Parts.Move, Parts.Move, Parts.Move, Parts.Heal, Parts.Heal]
  const WARRIOR_BODY: seq<Parts.PartType> :=
    [Parts.Move, Parts.Move, Parts.Move, Parts.Move, Parts.Move, Parts.Move,
     Parts.RangedAttack, Parts.RangedAttack, Parts.RangedAttack, Parts.Tough, Parts.Tough]

  /** `body.find(b => b.type === k)` is truthy. */
  predicate HasPart(body: seq<BodyPart>, k: Parts.PartType)
  {
    exists p :: p in body && p.kind == k
  }

  /** Whether a creep is within range `r` of `from`. */
  function InRange(env: Env, from: Id, r: nat): Creep -> bool
  {
    (c: Creep) => env.range(from, c.id) <= r
  }

  /** `from.findInRange(cs, r)`: the creeps of `cs` within range `r`, in order. */
  function FindInRange(env: Env, from: Id, cs: seq<Creep>, r: nat): (found: seq<Creep>)
    ensures |found| <= |cs|
    ensures forall c :: c in found <==> c in cs && env.range(from, c.id) <= r
  {
    Filter(cs, InRange(env, from, r))
  }

  /** `from.findClosestByPath(cs)` over creeps. */
  function ClosestCreep(env: Env, from: Id, cs: seq<Creep>): (r: Option<Creep>)
    ensures r.Some? ==> r.value in cs && env.path(from, r.value.id).Some?
    ensures r.Some? ==> forall c :: c in cs && env.path(from, c.id).Some? ==>
      env.path(from, r.value.id).value <= env.path(from, c.id).value
    ensures r.None? <==> forall c :: c in cs ==> env.path(from, c.id).None?
  {
    ClosestBy(cs, (c: Creep) => env.path(from, c.id))
  }

  /** `from.findClosestByPath(ks)` over containers. */
  function ClosestContainer(env: Env, from: Id, ks: seq<StructureContainer>): (r: Option<StructureContainer>)
    ensures r.Some? ==> r.value in ks && env.path(from, r.value.id).Some?
    ensures r.Some? ==> forall k :: k in ks && env.path(from, k.id).Some? ==>
      env.path(from, r.value.id).value <= env.path(from, k.id).value
    ensures r.None? <==> forall k :: k in ks ==> env.path(from, k.id).None?
  {
    ClosestBy(ks, (k: StructureContainer) => env.path(from, k.id))
  }

  /** `from.findClosestByRange(cs)`: by range every creep is reachable. */
  function ClosestCreepByRange(env: Env, from: Id, cs: seq<Creep>): (r: Option<Creep>)
    ensures r.Some? ==> r.value in cs && forall c :: c in cs ==> env.range(from, r.value.id) <= env.range(from, c.id)
    ensures r.None? <==> cs == []
  {
    var r := ClosestBy(cs, (c: Creep) => Some(env.range(from, c.id)));
    assert cs != [] ==> cs[0] in cs;
    r
  }

  /** `action(...) == ERR_NOT_IN_RANGE ? moveTo(...)`: issue `a`, and issue
      `fallback` only when the engine answers that the target is out of range. */
  function Attempt(env: Env, a: Action, fallback: Action): seq<Action>
  {
    [a] + (if env.outcome(a) == ErrNotInRange then [fallback] else [])
  }
}
