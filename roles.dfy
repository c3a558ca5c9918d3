/** What each own creep does in a tick, by role: the per-creep rules of
    `workerCreepAssignments`, `healerCreepAssignments`, `warriorCreepAssignments`,
    `attackCreeps`, `flee` and `towerProd`, each as the list of engine calls it issues. */
module Roles {
  import opened Seqs
  import opened Game
  import opened Classification
  import opened SpawnPolicy
  import Parts

  /** A call made by a creep (not a spawn order and not a tower order). */
  predicate IsCreepOrder(a: Action) { !a.SpawnCreep? && !a.TowerAttack? && !a.TowerHeal? }

  /** Every call in `acts` is a creep order made by the creep `id`. */
  predicate AllBy(acts: seq<Action>, id: Id) { forall a :: a in acts ==> IsCreepOrder(a) && a.actor == id }

  /** `id` is the id of one of the creeps `cs`. */
  predicate IsIdOf(id: Id, cs: seq<Creep>) { exists c :: c in cs && c.id == id }

  /** Every `moveTo` is the fallback of the call just before it, which aimed at the
      same target and was answered "not in range". */
  predicate MovesOnlyAsFallback(acts: seq<Action>, env: Env)
  {
    forall i :: 0 <= i < |acts| && acts[i].MoveTo? ==>
      i > 0 && !acts[i - 1].MoveDir? && !acts[i - 1].SpawnCreep? &&
      acts[i - 1].target == acts[i].target && env.outcome(acts[i - 1]) == ErrNotInRange
  }

  lemma MovesOnlyAsFallbackAppend(a: seq<Action>, b: seq<Action>, env: Env)
    requires MovesOnlyAsFallback(a, env) && MovesOnlyAsFallback(b, env)
    ensures MovesOnlyAsFallback(a + b, env)
  {
    forall i | 0 <= i < |a + b| && (a + b)[i].MoveTo?
      ensures i > 0 && !(a + b)[i - 1].MoveDir? && !(a + b)[i - 1].SpawnCreep? &&
        (a + b)[i - 1].target == (a + b)[i].target && env.outcome((a + b)[i - 1]) == ErrNotInRange
    {
      if i >= |a| {
        assert (a + b)[i] == b[i - |a|];
        assert i - |a| > 0;
        assert (a + b)[i - 1] == b[i - |a| - 1];
      } else {
        assert (a + b)[i] == a[i];
        assert (a + b)[i - 1] == a[i - 1];
      }
    }
  }

  lemma {:induction false} MovesOnlyAsFallbackConcat<T>(xs: seq<T>, f: T -> seq<Action>, env: Env)
    requires forall x :: x in xs ==> MovesOnlyAsFallback(f(x), env)
    ensures MovesOnlyAsFallback(ConcatMap(xs, f), env)
  {
    if xs != [] {
      var init := xs[..|xs| - 1];
      assert forall x :: x in init ==> x in xs;
      assert xs[|xs| - 1] in xs;
      MovesOnlyAsFallbackConcat(init, f, env);
      MovesOnlyAsFallbackAppend(ConcatMap(init, f), f(xs[|xs| - 1]), env);
    }
  }

  /** An action answered by a `moveTo` on its own target keeps moves as fallbacks only. */
  lemma AttemptMovesOnlyAsFallback(env: Env, a: Action, fallback: Action)
    requires !a.MoveTo? && !a.MoveDir? && !a.SpawnCreep? && fallback.MoveTo? && fallback.target == a.target
    ensures MovesOnlyAsFallback(Attempt(env, a, fallback), env)
  {
  }

  // ---------------------------------------------------------------- flee

  /** `flee(creep, threats, range)`: one move along the first step of the engine's
      flee path, or nothing when that path is empty. */
  function FleeActions(env: Env, c: Creep, threats: seq<Creep>, range: nat): seq<Action>
  {
    match env.fleeStep(c.id, threats, range)
    case None => []
    case Some(d) => [MoveDir(c.id, d)]
  }

  /** Fleeing is at most one directional move by the creep, made exactly when the
      flee path has a first step. */
  lemma FleeActionsProperties(env: Env, c: Creep, threats: seq<Creep>, range: nat)
    ensures |FleeActions(env, c, threats, range)| <= 1
    ensures forall a :: a in FleeActions(env, c, threats, range) ==> a.MoveDir? && a.actor == c.id
    ensures FleeActions(env, c, threats, range) != [] <==> env.fleeStep(c.id, threats, range).Some?
  {
  }

  // ---------------------------------------------------------------- workers

  /** A container is worth walking to when it reports no decay countdown (or 0), or
      when it is nearer to the creep than the ticks it has left. */
  predicate DecayEligible(env: Env, k: StructureContainer, c: Creep)
  {
    match k.ticksToDecay
    case None => true
    case Some(t) => t == 0 || env.range(k.id, c.id) < t
  }

  function EligibleContainers(s: Snapshot, env: Env, c: Creep): (ks: seq<StructureContainer>)
    ensures forall k :: k in ks <==> k in s.containers && DecayEligible(env, k, c)
  {
    Filter(s.containers, (k: StructureContainer) => DecayEligible(env, k, c))
  }

  /** The container a worker heads for: the nearest by path among the eligible ones. */
  function WorkerTarget(s: Snapshot, env: Env, c: Creep): (r: Option<StructureContainer>)
    ensures r.Some? ==> r.value in s.containers && DecayEligible(env, r.value, c) && env.path(c.id, r.value.id).Some?
    ensures r.Some? ==> forall k :: k in s.containers && DecayEligible(env, k, c) && env.path(c.id, k.id).Some? ==>
      env.path(c.id, r.value.id).value <= env.path(c.id, k.id).value
    ensures r.None? <==> forall k :: k in s.containers && DecayEligible(env, k, c) ==> env.path(c.id, k.id).None?
  {
    ClosestContainer(env, c.id, EligibleContainers(s, env, c))
  }

  /** What a full worker's delivery may be: a transfer to the spawn or to one of
      the own towers under 40 energy, or a move to the spawn. */
  predicate DeliveryOrder(a: Action, c: Creep, sp: StructureSpawn, towers: seq<StructureTower>)
  {
    IsCreepOrder(a) && a.actor == c.id && (a.Transfer? || a.MoveTo?) &&
    (a.MoveTo? ==> a.target == sp.id) &&
    (a.Transfer? ==> a.target == sp.id || exists t :: t in towers && t.energy < 40 && a.target == t.id)
  }

  /** One pass of the tower loop for a full worker: top up a tower under 40 energy,
      otherwise deliver to the spawn. */
  function TowerTransfer(env: Env, c: Creep, sp: StructureSpawn, t: StructureTower): seq<Action>
  {
    if t.energy < 40 then [Transfer(c.id, t.id)]
    else Attempt(env, Transfer(c.id, sp.id), MoveTo(c.id, sp.id))
  }

  function TowerStep(env: Env, c: Creep, sp: StructureSpawn): StructureTower -> seq<Action>
  {
    (t: StructureTower) => TowerTransfer(env, c, sp, t)
  }

  /** A tower under 40 energy gets exactly one transfer; any other tower sends the
      worker to the spawn instead. */
  lemma TowerTransferProperties(env: Env, c: Creep, sp: StructureSpawn, t: StructureTower)
    ensures t.energy < 40 ==> TowerTransfer(env, c, sp, t) == [Transfer(c.id, t.id)]
    ensures t.energy >= 40 ==> TowerTransfer(env, c, sp, t)[0] == Transfer(c.id, sp.id)
    ensures forall a :: a in TowerTransfer(env, c, sp, t) ==> DeliveryOrder(a, c, sp, [t])
    ensures MovesOnlyAsFallback(TowerTransfer(env, c, sp, t), env)
  {
    if t.energy < 40 {
      assert t in [t];
    } else {
      AttemptMovesOnlyAsFallback(env, Transfer(c.id, sp.id), MoveTo(c.id, sp.id));
    }
  }

  /** A full worker: the tower loop, then the delivery to the spawn (approached when
      out of range). */
  function DeliverActions(s: Snapshot, env: Env, sp: StructureSpawn, c: Creep): seq<Action>
  {
    ConcatMap(s.myTowers, TowerStep(env, c, sp)) + Attempt(env, Transfer(c.id, sp.id), MoveTo(c.id, sp.id))
  }

  /** A full worker only transfers to the spawn or to towers under 40 energy, always
      ends with its delivery to the spawn, and moves only toward the spawn when a
      transfer to it was out of range; its last call is that move exactly when the
      final transfer to the spawn is out of range. */
  lemma DeliverActionsProperties(s: Snapshot, env: Env, sp: StructureSpawn, c: Creep)
    ensures forall a :: a in DeliverActions(s, env, sp, c) ==> DeliveryOrder(a, c, sp, s.myTowers)
    ensures MovesOnlyAsFallback(DeliverActions(s, env, sp, c), env)
    ensures Transfer(c.id, sp.id) in DeliverActions(s, env, sp, c)
    ensures var r := DeliverActions(s, env, sp, c); r[|r| - 1] == Transfer(c.id, sp.id) || r[|r| - 1] == MoveTo(c.id, sp.id)
    ensures var r := DeliverActions(s, env, sp, c);
      env.outcome(Transfer(c.id, sp.id)) == ErrNotInRange <==> r[|r| - 1] == MoveTo(c.id, sp.id)
    ensures var r := DeliverActions(s, env, sp, c);
      env.outcome(Transfer(c.id, sp.id)) == ErrNotInRange ==> |r| >= 2 && r[|r| - 2] == Transfer(c.id, sp.id)
  {
    var f := TowerStep(env, c, sp);
    var towers := ConcatMap(s.myTowers, f);
    var deliver := Attempt(env, Transfer(c.id, sp.id), MoveTo(c.id, sp.id));
    forall t | t in s.myTowers
      ensures MovesOnlyAsFallback(f(t), env)
      ensures forall a :: a in f(t) ==> DeliveryOrder(a, c, sp, s.myTowers)
    {
      TowerTransferProperties(env, c, sp, t);
      forall a | a in f(t) ensures DeliveryOrder(a, c, sp, s.myTowers) {
        assert DeliveryOrder(a, c, sp, [t]);
      }
    }
    ConcatMapForall(s.myTowers, f, (a: Action) => DeliveryOrder(a, c, sp, s.myTowers));
    MovesOnlyAsFallbackConcat(s.myTowers, f, env);
    AttemptMovesOnlyAsFallback(env, Transfer(c.id, sp.id), MoveTo(c.id, sp.id));
    MovesOnlyAsFallbackAppend(towers, deliver, env);
    assert (towers + deliver)[|towers|] == Transfer(c.id, sp.id);
  }

  /** What one worker does, given the own spawn `sp`: with room left, withdraw from
      its container (approaching it when out of range); when full, deliver. */
  function WorkerActions(s: Snapshot, env: Env, sp: StructureSpawn, c: Creep): seq<Action>
  {
    match WorkerTarget(s, env, c)
    case None => []
    case Some(k) =>
      if c.freeCapacity > 0 then Attempt(env, Withdraw(c.id, k.id), MoveTo(c.id, k.id))
      else DeliverActions(s, env, sp, c)
  }

  /** A worker acts only when it has an eligible reachable container; with room left
      it only withdraws from that container (moving to it when out of range); when
      full it never withdraws and ends with its delivery to the spawn, moving to the
      spawn last exactly when that transfer is out of range. */
  lemma WorkerActionsProperties(s: Snapshot, env: Env, sp: StructureSpawn, c: Creep)
    ensures AllBy(WorkerActions(s, env, sp, c), c.id)
    ensures MovesOnlyAsFallback(WorkerActions(s, env, sp, c), env)
    ensures WorkerActions(s, env, sp, c) == [] <==> WorkerTarget(s, env, c).None?
    ensures c.freeCapacity > 0 ==> var r := WorkerActions(s, env, sp, c);
      |r| <= 2 && (r != [] ==> r[0].Withdraw?) &&
      forall a :: a in r ==> (a.Withdraw? || a.MoveTo?) && a.target == WorkerTarget(s, env, c).value.id
    ensures c.freeCapacity > 0 && WorkerTarget(s, env, c).Some? ==>
      var r, k := WorkerActions(s, env, sp, c), WorkerTarget(s, env, c).value;
      r[0] == Withdraw(c.id, k.id) &&
      (|r| == 2 <==> env.outcome(Withdraw(c.id, k.id)) == ErrNotInRange) &&
      (|r| == 2 ==> r[1] == MoveTo(c.id, k.id))
    ensures c.freeCapacity == 0 && WorkerTarget(s, env, c).Some? ==> Transfer(c.id, sp.id) in WorkerActions(s, env, sp, c)
    ensures c.freeCapacity == 0 && WorkerTarget(s, env, c).Some? ==>
      var r := WorkerActions(s, env, sp, c);
      r == DeliverActions(s, env, sp, c) && r != [] &&
      (env.outcome(Transfer(c.id, sp.id)) == ErrNotInRange <==> r[|r| - 1] == MoveTo(c.id, sp.id))
    ensures c.freeCapacity == 0 ==> forall a :: a in WorkerActions(s, env, sp, c) ==> DeliveryOrder(a, c, sp, s.myTowers)
  {
    match WorkerTarget(s, env, c)
    case None =>
    case Some(k) =>
      if c.freeCapacity > 0 {
        AttemptMovesOnlyAsFallback(env, Withdraw(c.id, k.id), MoveTo(c.id, k.id));
      } else {
        DeliverActionsProperties(s, env, sp, c);
      }
  }

  function WorkerStep(s: Snapshot, env: Env, sp: StructureSpawn): Creep -> seq<Action>
  {
    (c: Creep) => WorkerActions(s, env, sp, c)
  }

  /** `workerCreepAssignments`: nothing without an own spawn, else each worker in turn. */
  function WorkerPhase(s: Snapshot, env: Env): seq<Action>
  {
    match s.mySpawn
    case None => []
    case Some(sp) => ConcatMap(s.workers, WorkerStep(s, env, sp))
  }

  // ---------------------------------------------------------------- squad leader

  /** `enemySpawn.findClosestByPath(warriorCreeps)`: the warrior nearest the enemy
      spawn by path; there is none while the enemy spawn is missing. */
  function Leader(s: Snapshot, env: Env): (r: Option<Creep>)
    ensures s.enemySpawn.None? ==> r.None?
    ensures r.Some? ==> s.enemySpawn.Some? && r.value in s.warriors && env.path(s.enemySpawn.value.id, r.value.id).Some?
    ensures r.Some? ==> forall w :: w in s.warriors && env.path(s.enemySpawn.value.id, w.id).Some? ==>
      env.path(s.enemySpawn.value.id, r.value.id).value <= env.path(s.enemySpawn.value.id, w.id).value
    ensures s.enemySpawn.Some? && r.None? ==> forall w :: w in s.warriors ==> env.path(s.enemySpawn.value.id, w.id).None?
  {
    match s.enemySpawn
    case None => None
    case Some(es) => ClosestCreep(env, es.id, s.warriors)
  }

  /** The creeps of `cs` other than the one with id `id`. */
  function OthersThan(cs: seq<Creep>, id: Id): (r: seq<Creep>)
    ensures forall c :: c in r <==> c in cs && c.id != id
  {
    Filter(cs, (c: Creep) => c.id != id)
  }

  /** The leader holds its ground while fewer than two other warriors or no other
      healer are within range 5 of it; no other creep ever holds. */
  function StayPut(s: Snapshot, env: Env, c: Creep, leader: Option<Creep>): (r: bool)
    ensures r ==> leader.Some? && c.id == leader.value.id
    ensures leader.Some? && c.id == leader.value.id ==>
      (r <==> |FindInRange(env, c.id, OthersThan(s.warriors, c.id), 5)| < 2 ||
              forall h :: h in s.healers && h.id != c.id ==> env.range(c.id, h.id) > 5)
  {
    if leader.Some? && c.id == leader.value.id then
      var warriorsNearby := |FindInRange(env, c.id, OthersThan(s.warriors, leader.value.id), 5)|;
      var nearbyHealers := FindInRange(env, c.id, OthersThan(s.healers, leader.value.id), 5);
      assert nearbyHealers != [] ==> nearbyHealers[0] in nearbyHealers;
      warriorsNearby < 2 || |nearbyHealers| < 1
    else false
  }

  // ---------------------------------------------------------------- attackCreeps

  /** The enemy still able to move: some MOVE part has hits left. */
  predicate HasLiveMove(e: Creep) { exists p :: p in e.body && p.kind == Parts.Move && p.hits > 0 }

  /** `attackCreeps`' target: when enemies are injured, the first injured one within
      range 3 that can still move; otherwise the nearest enemy by path. */
  function AttackTarget(s: Snapshot, env: Env, c: Creep): (t: Option<Creep>)
    ensures t.Some? ==> t.value in s.enemies || t.value in s.injuredEnemies
    ensures (exists e :: e in s.injuredEnemies && HasLiveMove(e) && env.range(c.id, e.id) <= 3) ==>
      t.Some? && t.value in s.injuredEnemies && HasLiveMove(t.value) && env.range(c.id, t.value.id) <= 3
    ensures !(exists e :: e in s.injuredEnemies && HasLiveMove(e) && env.range(c.id, e.id) <= 3) ==>
      t == ClosestCreep(env, c.id, s.enemies)
  {
    var mobile := if |s.injuredEnemies| > 0 then FindInRange(env, c.id, Filter(s.injuredEnemies, HasLiveMove), 3) else [];
    if |mobile| > 0 then
      assert mobile[0] in mobile;
      Some(mobile[0])
    else
      assert forall e :: e in s.injuredEnemies && HasLiveMove(e) && env.range(c.id, e.id) <= 3 ==> e in mobile;
      ClosestCreep(env, c.id, s.enemies)
  }

  /** Of the injured enemies that can move and are within 3, the target is the
      first in the engine's listing order (`mobileEnemyCreeps[0]`). */
  lemma AttackTargetFirst(s: Snapshot, env: Env, c: Creep)
    requires exists e :: e in s.injuredEnemies && HasLiveMove(e) && env.range(c.id, e.id) <= 3
    ensures AttackTarget(s, env, c).Some?
    ensures exists k :: (0 <= k < |s.injuredEnemies| && s.injuredEnemies[k] == AttackTarget(s, env, c).value &&
      HasLiveMove(s.injuredEnemies[k]) && env.range(c.id, s.injuredEnemies[k].id) <= 3 &&
      forall j :: 0 <= j < k ==> !(HasLiveMove(s.injuredEnemies[j]) && env.range(c.id, s.injuredEnemies[j].id) <= 3))
  {
    var e :| e in s.injuredEnemies && HasLiveMove(e) && env.range(c.id, e.id) <= 3;
    var mobile := FindInRange(env, c.id, Filter(s.injuredEnemies, HasLiveMove), 3);
    assert e in mobile;
    FilterFilterFirst(s.injuredEnemies, HasLiveMove, InRange(env, c.id, 3));
  }

  /** `attackCreeps`' retreat: flee at range 4 from the enemies within 5 when the
      target has a melee part and is nearer than 4. */
  function AttackEvade(s: Snapshot, env: Env, c: Creep, target: Option<Creep>): seq<Action>
  {
    if target.Some? && HasPart(target.value.body, Parts.Attack) && env.range(c.id, target.value.id) < 4
    then FleeActions(env, c, FindInRange(env, c.id, s.enemies, 5), 4)
    else []
  }

  /** `attackCreeps`' fight: shoot the target and close in while it is out of range;
      otherwise (after a shot that landed, or with no target) head for the enemy spawn
      unless holding. Nothing at all without enemies. */
  function AttackFight(s: Snapshot, env: Env, c: Creep, target: Option<Creep>, stayPut: bool): seq<Action>
  {
    if |s.enemies| == 0 then []
    else if target.Some? && env.outcome(RangedAttack(c.id, target.value.id)) == ErrNotInRange then
      [RangedAttack(c.id, target.value.id)] + Attempt(env, RangedAttack(c.id, target.value.id), MoveTo(c.id, target.value.id))
    else
      (if target.Some? then [RangedAttack(c.id, target.value.id)] else []) +
      (if s.enemySpawn.Some? && !stayPut then [MoveTo(c.id, s.enemySpawn.value.id)] else [])
  }

  /** `attackCreeps(creep, stayPut)`: the retreat, then the fight, against one target. */
  function AttackActions(s: Snapshot, env: Env, c: Creep, stayPut: bool): seq<Action>
  {
    var target := AttackTarget(s, env, c);
    AttackEvade(s, env, c, target) + AttackFight(s, env, c, target, stayPut)
  }

  /** The retreat is at most one step, and only from a melee target nearer than 4. */
  lemma AttackEvadeProperties(s: Snapshot, env: Env, c: Creep, target: Option<Creep>)
    ensures |AttackEvade(s, env, c, target)| <= 1
    ensures forall a :: a in AttackEvade(s, env, c, target) ==> a.MoveDir? && a.actor == c.id
    ensures AttackEvade(s, env, c, target) != [] ==>
      target.Some? && HasPart(target.value.body, Parts.Attack) && env.range(c.id, target.value.id) < 4
    ensures target.Some? && HasPart(target.value.body, Parts.Attack) && env.range(c.id, target.value.id) < 4 ==>
      AttackEvade(s, env, c, target) == FleeActions(env, c, FindInRange(env, c.id, s.enemies, 5), 4)
  {
    if target.Some? && HasPart(target.value.body, Parts.Attack) && env.range(c.id, target.value.id) < 4 {
      FleeActionsProperties(env, c, FindInRange(env, c.id, s.enemies, 5), 4);
    }
  }

  /** The fight shoots only the target, first of all when there is one; a shot
      reported "not in range" is repeated and followed by the move to the target, and
      a move toward the target comes only that way; otherwise it moves toward the
      enemy spawn exactly when not holding; without enemies it does nothing. */
  lemma AttackFightProperties(s: Snapshot, env: Env, c: Creep, target: Option<Creep>, stayPut: bool)
    ensures AllBy(AttackFight(s, env, c, target, stayPut), c.id) && |AttackFight(s, env, c, target, stayPut)| <= 3
    ensures |s.enemies| == 0 ==> AttackFight(s, env, c, target, stayPut) == []
    ensures forall a :: a in AttackFight(s, env, c, target, stayPut) && a.RangedAttack? ==>
      target.Some? && a.target == target.value.id
    ensures forall a :: a in AttackFight(s, env, c, target, stayPut) ==> !a.MoveDir?
    ensures forall a :: a in AttackFight(s, env, c, target, stayPut) && a.MoveTo? ==>
      (target.Some? && a.target == target.value.id && env.outcome(RangedAttack(c.id, a.target)) == ErrNotInRange) ||
      (s.enemySpawn.Some? && !stayPut && a.target == s.enemySpawn.value.id)
    ensures |s.enemies| > 0 && target.Some? ==>
      AttackFight(s, env, c, target, stayPut) != [] && AttackFight(s, env, c, target, stayPut)[0] == RangedAttack(c.id, target.value.id)
    ensures (|s.enemies| > 0 && s.enemySpawn.Some? && !stayPut &&
             (target.None? || env.outcome(RangedAttack(c.id, target.value.id)) != ErrNotInRange)) ==>
      MoveTo(c.id, s.enemySpawn.value.id) in AttackFight(s, env, c, target, stayPut)
    ensures |s.enemies| > 0 && target.Some? && env.outcome(RangedAttack(c.id, target.value.id)) == ErrNotInRange ==>
      AttackFight(s, env, c, target, stayPut) ==
        [RangedAttack(c.id, target.value.id), RangedAttack(c.id, target.value.id), MoveTo(c.id, target.value.id)]
    ensures |s.enemies| > 0 && target.Some? && env.outcome(RangedAttack(c.id, target.value.id)) != ErrNotInRange ==>
      AttackFight(s, env, c, target, stayPut) ==
        [RangedAttack(c.id, target.value.id)] + (if s.enemySpawn.Some? && !stayPut then [MoveTo(c.id, s.enemySpawn.value.id)] else [])
  {
  }

  /** A melee target nearer than 4 makes `attackCreeps` start with the flee. */
  lemma AttackActionsFleeFirst(s: Snapshot, env: Env, c: Creep, stayPut: bool)
    ensures var t, flee := AttackTarget(s, env, c), FleeActions(env, c, FindInRange(env, c.id, s.enemies, 5), 4);
      t.Some? && HasPart(t.value.body, Parts.Attack) && env.range(c.id, t.value.id) < 4 ==>
        |flee| <= |AttackActions(s, env, c, stayPut)| && AttackActions(s, env, c, stayPut)[..|flee|] == flee
  {
    var target := AttackTarget(s, env, c);
    var evade, fight := AttackEvade(s, env, c, target), AttackFight(s, env, c, target, stayPut);
    AttackEvadeProperties(s, env, c, target);
    assert AttackActions(s, env, c, stayPut) == evade + fight;
    assert (evade + fight)[..|evade|] == evade;
  }

  /** The calls of `attackCreeps` are the creep's own, at most 4, shoot only its
      target, and without enemies are only sideways moves. */
  lemma AttackActionsCalls(s: Snapshot, env: Env, c: Creep, stayPut: bool)
    ensures AllBy(AttackActions(s, env, c, stayPut), c.id) && |AttackActions(s, env, c, stayPut)| <= 4
    ensures forall a :: a in AttackActions(s, env, c, stayPut) && a.RangedAttack? ==>
      AttackTarget(s, env, c).Some? && a.target == AttackTarget(s, env, c).value.id
    ensures |s.enemies| == 0 ==> forall a :: a in AttackActions(s, env, c, stayPut) ==> a.MoveDir?
  {
    var target := AttackTarget(s, env, c);
    AttackEvadeProperties(s, env, c, target);
    AttackFightProperties(s, env, c, target, stayPut);
    var evade, fight := AttackEvade(s, env, c, target), AttackFight(s, env, c, target, stayPut);
    assert AttackActions(s, env, c, stayPut) == evade + fight;
    assert forall a :: a in evade + fight ==> a in evade || a in fight;
  }

  /** `attackCreeps` moves sideways only away from a melee target nearer than 4. */
  lemma AttackActionsSidestep(s: Snapshot, env: Env, c: Creep, stayPut: bool)
    ensures (exists a :: a in AttackActions(s, env, c, stayPut) && a.MoveDir?) ==> (
      AttackTarget(s, env, c).Some? && HasPart(AttackTarget(s, env, c).value.body, Parts.Attack) &&
      env.range(c.id, AttackTarget(s, env, c).value.id) < 4)
  {
    var target := AttackTarget(s, env, c);
    var evade, fight := AttackEvade(s, env, c, target), AttackFight(s, env, c, target, stayPut);
    assert AttackActions(s, env, c, stayPut) == evade + fight;
    if exists a :: a in AttackActions(s, env, c, stayPut) && a.MoveDir? {
      var a: Action :| a in evade + fight && a.MoveDir?;
      AttackFightProperties(s, env, c, target, stayPut);
      assert a !in fight;
      AttackEvadeProperties(s, env, c, target);
    }
  }

  /** The targeted moves of `attackCreeps`: toward the target whenever its shot was
      out of range, and when holding only then; when not holding, toward the enemy
      spawn whenever there was no need to close in. */
  lemma AttackActionsMoves(s: Snapshot, env: Env, c: Creep, stayPut: bool)
    ensures stayPut ==> forall a :: a in AttackActions(s, env, c, stayPut) && a.MoveTo? ==>
      AttackTarget(s, env, c).Some? && a.target == AttackTarget(s, env, c).value.id &&
      env.outcome(RangedAttack(c.id, a.target)) == ErrNotInRange
    ensures (|s.enemies| > 0 && s.enemySpawn.Some? && !stayPut &&
             (AttackTarget(s, env, c).None? ||
              env.outcome(RangedAttack(c.id, AttackTarget(s, env, c).value.id)) != ErrNotInRange)) ==>
      MoveTo(c.id, s.enemySpawn.value.id) in AttackActions(s, env, c, stayPut)
    ensures var t := AttackTarget(s, env, c);
      |s.enemies| > 0 && t.Some? && env.outcome(RangedAttack(c.id, t.value.id)) == ErrNotInRange ==>
        MoveTo(c.id, t.value.id) in AttackActions(s, env, c, stayPut)
  {
    var target := AttackTarget(s, env, c);
    AttackEvadeProperties(s, env, c, target);
    AttackFightProperties(s, env, c, target, stayPut);
    var evade, fight := AttackEvade(s, env, c, target), AttackFight(s, env, c, target, stayPut);
    assert AttackActions(s, env, c, stayPut) == evade + fight;
    assert forall a :: a in evade + fight ==> a in evade || a in fight;
    if |s.enemies| > 0 && s.enemySpawn.Some? && !stayPut &&
      (target.None? || env.outcome(RangedAttack(c.id, target.value.id)) != ErrNotInRange) {
      assert MoveTo(c.id, s.enemySpawn.value.id) in fight;
    }
    if |s.enemies| > 0 && target.Some? && env.outcome(RangedAttack(c.id, target.value.id)) == ErrNotInRange {
      assert MoveTo(c.id, target.value.id) in fight;
    }
  }

  /** `attackCreeps` in one: every call is the creep's own; it shoots only its
      target; it moves sideways only away from a melee target nearer than 4; it
      closes in on a target its shot could not reach, and a holding creep moves only
      that way; and a creep that is not holding advances on the enemy spawn whenever
      it did not have to close in on its target. */
  lemma AttackActionsProperties(s: Snapshot, env: Env, c: Creep, stayPut: bool)
    ensures AllBy(AttackActions(s, env, c, stayPut), c.id) && |AttackActions(s, env, c, stayPut)| <= 4
    ensures forall a :: a in AttackActions(s, env, c, stayPut) && a.RangedAttack? ==>
      AttackTarget(s, env, c).Some? && a.target == AttackTarget(s, env, c).value.id
    ensures |s.enemies| == 0 ==> forall a :: a in AttackActions(s, env, c, stayPut) ==> a.MoveDir?
    ensures (exists a :: a in AttackActions(s, env, c, stayPut) && a.MoveDir?) ==> (
      AttackTarget(s, env, c).Some? && HasPart(AttackTarget(s, env, c).value.body, Parts.Attack) &&
      env.range(c.id, AttackTarget(s, env, c).value.id) < 4)
    ensures stayPut ==> forall a :: a in AttackActions(s, env, c, stayPut) && a.MoveTo? ==>
      AttackTarget(s, env, c).Some? && a.target == AttackTarget(s, env, c).value.id &&
      env.outcome(RangedAttack(c.id, a.target)) == ErrNotInRange
    ensures (|s.enemies| > 0 && s.enemySpawn.Some? && !stayPut &&
             (AttackTarget(s, env, c).None? ||
              env.outcome(RangedAttack(c.id, AttackTarget(s, env, c).value.id)) != ErrNotInRange)) ==>
      MoveTo(c.id, s.enemySpawn.value.id) in AttackActions(s, env, c, stayPut)
    ensures var t := AttackTarget(s, env, c);
      |s.enemies| > 0 && t.Some? && env.outcome(RangedAttack(c.id, t.value.id)) == ErrNotInRange ==>
        MoveTo(c.id, t.value.id) in AttackActions(s, env, c, stayPut)
    ensures var t, flee := AttackTarget(s, env, c), FleeActions(env, c, FindInRange(env, c.id, s.enemies, 5), 4);
      t.Some? && HasPart(t.value.body, Parts.Attack) && env.range(c.id, t.value.id) < 4 ==>
        |flee| <= |AttackActions(s, env, c, stayPut)| && AttackActions(s, env, c, stayPut)[..|flee|] == flee
  {
    AttackActionsCalls(s, env, c, stayPut);
    AttackActionsSidestep(s, env, c, stayPut);
    AttackActionsMoves(s, env, c, stayPut);
    AttackActionsFleeFirst(s, env, c, stayPut);
  }

  // ---------------------------------------------------------------- warriors

  /** One warrior in attacking mode: shoot the enemy spawn unless enemies are about
      and the spawn is more than 5 away; fight creeps otherwise or when the spawn is
      out of range; with the enemy spawn gone, fight creeps. */
  function WarriorActions(s: Snapshot, env: Env, c: Creep, leader: Option<Creep>): seq<Action>
  {
    var stayPut := StayPut(s, env, c, leader);
    match s.enemySpawn
    case None => AttackActions(s, env, c, stayPut)
    case Some(es) =>
      if |s.enemies| > 0 && env.range(c.id, es.id) > 5 then AttackActions(s, env, c, stayPut)
      else
        [RangedAttack(c.id, es.id)] +
        (if env.outcome(RangedAttack(c.id, es.id)) == ErrNotInRange then AttackActions(s, env, c, stayPut) else [])
  }

  /** A warrior near the enemy spawn (or with no enemy creeps about) shoots the spawn
      first, and does nothing else when that shot is in range; it shoots only the
      spawn or its creep target; and the holding leader moves only toward its target. */
  lemma WarriorActionsProperties(s: Snapshot, env: Env, c: Creep, leader: Option<Creep>)
    ensures AllBy(WarriorActions(s, env, c, leader), c.id)
    ensures s.enemySpawn.Some? && (|s.enemies| == 0 || env.range(c.id, s.enemySpawn.value.id) <= 5) ==>
      var r := WarriorActions(s, env, c, leader);
      r != [] && r[0] == RangedAttack(c.id, s.enemySpawn.value.id) &&
      (env.outcome(r[0]) != ErrNotInRange ==> r == [r[0]])
    ensures forall a :: a in WarriorActions(s, env, c, leader) && a.RangedAttack? ==>
      (s.enemySpawn.Some? && a.target == s.enemySpawn.value.id) ||
      (AttackTarget(s, env, c).Some? && a.target == AttackTarget(s, env, c).value.id)
    ensures StayPut(s, env, c, leader) ==> forall a :: a in WarriorActions(s, env, c, leader) && a.MoveTo? ==>
      AttackTarget(s, env, c).Some? && a.target == AttackTarget(s, env, c).value.id
    ensures (s.enemySpawn.None? || (|s.enemies| > 0 && env.range(c.id, s.enemySpawn.value.id) > 5)) ==>
      WarriorActions(s, env, c, leader) == AttackActions(s, env, c, StayPut(s, env, c, leader))
    ensures (s.enemySpawn.Some? && (|s.enemies| == 0 || env.range(c.id, s.enemySpawn.value.id) <= 5) &&
             env.outcome(RangedAttack(c.id, s.enemySpawn.value.id)) == ErrNotInRange) ==>
      WarriorActions(s, env, c, leader) ==
        [RangedAttack(c.id, s.enemySpawn.value.id)] + AttackActions(s, env, c, StayPut(s, env, c, leader))
  {
    AttackActionsProperties(s, env, c, StayPut(s, env, c, leader));
  }

  function WarriorStep(s: Snapshot, env: Env, leader: Option<Creep>): Creep -> seq<Action>
  {
    (c: Creep) => WarriorActions(s, env, c, leader)
  }

  /** The loop pass of stealthy mode: only the leader advances on the enemy spawn. */
  function LeaderAdvance(s: Snapshot, c: Creep, leader: Option<Creep>): seq<Action>
  {
    if leader.Some? && c.id == leader.value.id && s.enemySpawn.Some? then [MoveTo(c.id, s.enemySpawn.value.id)] else []
  }

  function AdvanceStep(s: Snapshot, leader: Option<Creep>): Creep -> seq<Action>
  {
    (c: Creep) => LeaderAdvance(s, c, leader)
  }

  /** Stealthy mode: every 25th tick the leader moves on the enemy spawn. */
  function StealthyActions(s: Snapshot, env: Env, ticks: nat): seq<Action>
  {
    var leader := Leader(s, env);
    if ticks % 25 != 0 then []
    else
      (if s.enemySpawn.Some? && leader.Some? then [MoveTo(leader.value.id, s.enemySpawn.value.id)] else []) +
      ConcatMap(s.warriors, AdvanceStep(s, leader))
  }

  /** In stealthy mode nothing happens off the 25-tick beat; on it, the only calls
      are the leader's moves on the enemy spawn, and there is at least one when a
      leader exists. */
  lemma StealthyActionsProperties(s: Snapshot, env: Env, ticks: nat)
    ensures ticks % 25 != 0 ==> StealthyActions(s, env, ticks) == []
    ensures forall a :: a in StealthyActions(s, env, ticks) ==>
      s.enemySpawn.Some? && Leader(s, env).Some? && a == MoveTo(Leader(s, env).value.id, s.enemySpawn.value.id)
    ensures ticks % 25 == 0 && Leader(s, env).Some? ==> StealthyActions(s, env, ticks) != []
  {
    var leader := Leader(s, env);
    if ticks % 25 == 0 {
      ConcatMapForall(s.warriors, AdvanceStep(s, leader), (a: Action) =>
        s.enemySpawn.Some? && leader.Some? && a == MoveTo(leader.value.id, s.enemySpawn.value.id));
    }
  }

  /** `warriorCreepAssignments(isAttacking)`. */
  function WarriorPhase(s: Snapshot, env: Env, ticks: nat, attacking: bool): seq<Action>
  {
    if attacking then ConcatMap(s.warriors, WarriorStep(s, env, Leader(s, env)))
    else StealthyActions(s, env, ticks)
  }

  // ---------------------------------------------------------------- healers

  /** The healer's retreat: flee at range 5 from the enemies within 5 when the
      nearest enemy by path is armed and nearer than 5. */
  function HealerEvade(s: Snapshot, env: Env, c: Creep): seq<Action>
  {
    var enemy := ClosestCreep(env, c.id, s.enemies);
    if enemy.Some? && IsArmed(enemy.value) && env.range(c.id, enemy.value.id) < 5
    then FleeActions(env, c, FindInRange(env, c.id, s.enemies, 5), 5)
    else []
  }

  /** The warrior a healer follows: the squad leader while the enemy spawn stands,
      otherwise the warrior nearest the healer by path. */
  function FollowTarget(s: Snapshot, env: Env, c: Creep): (r: Option<Creep>)
    ensures s.enemySpawn.Some? ==> r == Leader(s, env)
    ensures r.Some? ==> r.value in s.warriors
    ensures s.enemySpawn.None? ==> r == ClosestCreep(env, c.id, s.warriors)
  {
    if s.enemySpawn.Some? then Leader(s, env) else ClosestCreep(env, c.id, s.warriors)
  }

  /** The move toward the followed warrior, if there is one. */
  function FollowMoves(c: Creep, warrior: Option<Creep>): seq<Action>
  {
    if warrior.Some? then [MoveTo(c.id, warrior.value.id)] else []
  }

  /** Healing one patient: a touch heal, then a ranged heal and an approach as each
      answers "not in range"; a touch heal that does not report "not in range" is
      followed by the `follow` moves. */
  function TreatActions(env: Env, c: Creep, patient: Creep, follow: seq<Action>): seq<Action>
  {
    var heal := Heal(c.id, patient.id);
    if env.outcome(heal) == ErrNotInRange then
      [heal] + Attempt(env, RangedHeal(c.id, patient.id), MoveTo(c.id, patient.id))
    else [heal] + follow
  }

  /** The healer's care: treat the nearest injured creep by path; with nobody injured
      (or nobody reachable), move to the followed warrior. */
  function HealerCare(s: Snapshot, env: Env, c: Creep): seq<Action>
  {
    var follow := FollowMoves(c, FollowTarget(s, env, c));
    var patient := ClosestCreep(env, c.id, s.injured);
    if |s.injured| > 0 && patient.Some? then TreatActions(env, c, patient.value, follow)
    else follow
  }

  /** One healer: its retreat, then its care. */
  function HealerActions(s: Snapshot, env: Env, c: Creep): seq<Action>
  {
    HealerEvade(s, env, c) + HealerCare(s, env, c)
  }

  /** The retreat is at most one step, and only from an armed enemy nearer than 5. */
  lemma HealerEvadeProperties(s: Snapshot, env: Env, c: Creep)
    ensures |HealerEvade(s, env, c)| <= 1
    ensures forall a :: a in HealerEvade(s, env, c) ==> a.MoveDir? && a.actor == c.id
    ensures HealerEvade(s, env, c) != [] ==> var e := ClosestCreep(env, c.id, s.enemies);
      e.Some? && IsArmed(e.value) && env.range(c.id, e.value.id) < 5
    ensures var e := ClosestCreep(env, c.id, s.enemies);
      e.Some? && IsArmed(e.value) && env.range(c.id, e.value.id) < 5 ==>
        HealerEvade(s, env, c) == FleeActions(env, c, FindInRange(env, c.id, s.enemies, 5), 5)
  {
    var enemy := ClosestCreep(env, c.id, s.enemies);
    if enemy.Some? && IsArmed(enemy.value) && env.range(c.id, enemy.value.id) < 5 {
      FleeActionsProperties(env, c, FindInRange(env, c.id, s.enemies, 5), 5);
    }
  }

  /** Treating heals only the patient, tries a ranged heal only after a touch heal
      out of range, and approaches only the patient or along `follow`. */
  lemma TreatActionsProperties(env: Env, c: Creep, patient: Creep, follow: seq<Action>)
    requires |follow| <= 1 && forall a :: a in follow ==> a.MoveTo? && a.actor == c.id
    ensures AllBy(TreatActions(env, c, patient, follow), c.id) && |TreatActions(env, c, patient, follow)| <= 3
    ensures TreatActions(env, c, patient, follow)[0] == Heal(c.id, patient.id)
    ensures forall a :: a in TreatActions(env, c, patient, follow) && (a.Heal? || a.RangedHeal?) ==> a.target == patient.id
    ensures forall t :: RangedHeal(c.id, t) in TreatActions(env, c, patient, follow) ==>
      Heal(c.id, t) in TreatActions(env, c, patient, follow) && env.outcome(Heal(c.id, t)) == ErrNotInRange
    ensures forall a :: a in TreatActions(env, c, patient, follow) && a.MoveTo? ==> a.target == patient.id || a in follow
    ensures forall a :: a in TreatActions(env, c, patient, follow) ==> !a.MoveDir?
    ensures env.outcome(Heal(c.id, patient.id)) == ErrNotInRange ==> var r := TreatActions(env, c, patient, follow);
      |r| >= 2 && r[1] == RangedHeal(c.id, patient.id) &&
      (|r| == 3 <==> env.outcome(RangedHeal(c.id, patient.id)) == ErrNotInRange) &&
      (|r| == 3 ==> r[2] == MoveTo(c.id, patient.id))
    ensures env.outcome(Heal(c.id, patient.id)) != ErrNotInRange ==> TreatActions(env, c, patient, follow)[1..] == follow
  {
  }

  /** The care's fallback chain on the patient, the injured creep nearest by path:
      touch heal; on "not in range" a ranged heal, and on "not in range" again the
      approach; after a touch heal that is not out of range, the follow move. */
  lemma HealerCareChain(s: Snapshot, env: Env, c: Creep)
    ensures var r, p, follow := HealerCare(s, env, c), ClosestCreep(env, c.id, s.injured), FollowMoves(c, FollowTarget(s, env, c));
      p.Some? ==> (
        r[0] == Heal(c.id, p.value.id) &&
        (env.outcome(Heal(c.id, p.value.id)) == ErrNotInRange ==>
          |r| >= 2 && r[1] == RangedHeal(c.id, p.value.id) &&
          (|r| == 3 <==> env.outcome(RangedHeal(c.id, p.value.id)) == ErrNotInRange) &&
          (|r| == 3 ==> r[2] == MoveTo(c.id, p.value.id))) &&
        (env.outcome(Heal(c.id, p.value.id)) != ErrNotInRange ==> r[1..] == follow))
  {
    var patient := ClosestCreep(env, c.id, s.injured);
    if patient.Some? {
      assert patient.value in s.injured;
      TreatActionsProperties(env, c, patient.value, FollowMoves(c, FollowTarget(s, env, c)));
    }
  }

  /** The care heals only own injured creeps, and nothing when nobody is injured; a
      ranged heal comes only after a touch heal out of range; moves go only to an
      injured creep or to the followed warrior. */
  lemma HealerCareProperties(s: Snapshot, env: Env, c: Creep)
    ensures AllBy(HealerCare(s, env, c), c.id) && |HealerCare(s, env, c)| <= 3
    ensures forall a :: a in HealerCare(s, env, c) && (a.Heal? || a.RangedHeal?) ==> IsIdOf(a.target, s.injured)
    ensures |s.injured| == 0 ==> forall a :: a in HealerCare(s, env, c) ==> !a.Heal? && !a.RangedHeal?
    ensures forall t :: RangedHeal(c.id, t) in HealerCare(s, env, c) ==>
      Heal(c.id, t) in HealerCare(s, env, c) && env.outcome(Heal(c.id, t)) == ErrNotInRange
    ensures forall a :: a in HealerCare(s, env, c) && a.MoveTo? ==>
      IsIdOf(a.target, s.injured) || (FollowTarget(s, env, c).Some? && a.target == FollowTarget(s, env, c).value.id)
    ensures forall a :: a in HealerCare(s, env, c) ==> !a.MoveDir?
    ensures (exists i :: i in s.injured && env.path(c.id, i.id).Some?) ==>
      HealerCare(s, env, c) != [] && HealerCare(s, env, c)[0] == Heal(c.id, ClosestCreep(env, c.id, s.injured).value.id)
    ensures (forall i :: i in s.injured ==> env.path(c.id, i.id).None?) ==>
      HealerCare(s, env, c) == FollowMoves(c, FollowTarget(s, env, c))
  {
    var follow := FollowMoves(c, FollowTarget(s, env, c));
    var patient := ClosestCreep(env, c.id, s.injured);
    if |s.injured| > 0 && patient.Some? {
      TreatActionsProperties(env, c, patient.value, follow);
      var r := TreatActions(env, c, patient.value, follow);
      assert forall a :: a in r && (a.Heal? || a.RangedHeal? || (a.MoveTo? && a !in follow)) ==>
        a.target == patient.value.id;
    }
  }

  /** One healer: every call is its own, at most four of them; heals go only to own
      injured creeps; it steps aside only from an armed enemy nearer than 5; and it
      moves only to an injured creep or to the squad leader (the nearest warrior once
      the enemy spawn is gone). */
  lemma HealerActionsProperties(s: Snapshot, env: Env, c: Creep)
    ensures AllBy(HealerActions(s, env, c), c.id) && |HealerActions(s, env, c)| <= 4
    ensures forall a :: a in HealerActions(s, env, c) && (a.Heal? || a.RangedHeal?) ==> IsIdOf(a.target, s.injured)
    ensures |s.injured| == 0 ==> forall a :: a in HealerActions(s, env, c) ==> !a.Heal? && !a.RangedHeal?
    ensures forall t :: RangedHeal(c.id, t) in HealerActions(s, env, c) ==>
      Heal(c.id, t) in HealerActions(s, env, c) && env.outcome(Heal(c.id, t)) == ErrNotInRange
    ensures (exists a :: a in HealerActions(s, env, c) && a.MoveDir?) ==>
      var e := ClosestCreep(env, c.id, s.enemies); e.Some? && IsArmed(e.value) && env.range(c.id, e.value.id) < 5
    ensures var e, flee := ClosestCreep(env, c.id, s.enemies), FleeActions(env, c, FindInRange(env, c.id, s.enemies, 5), 5);
      e.Some? && IsArmed(e.value) && env.range(c.id, e.value.id) < 5 ==>
        |flee| <= |HealerActions(s, env, c)| && HealerActions(s, env, c)[..|flee|] == flee
    ensures HealerActions(s, env, c)[|HealerEvade(s, env, c)|..] == HealerCare(s, env, c)
    ensures (exists i :: i in s.injured && env.path(c.id, i.id).Some?) ==>
      Heal(c.id, ClosestCreep(env, c.id, s.injured).value.id) in HealerActions(s, env, c)
    ensures forall a :: a in HealerActions(s, env, c) && a.MoveTo? ==>
      IsIdOf(a.target, s.injured) ||
      (if s.enemySpawn.Some? then Leader(s, env).Some? && a.target == Leader(s, env).value.id
       else IsIdOf(a.target, s.warriors))
  {
    HealerEvadeProperties(s, env, c);
    HealerCareProperties(s, env, c);
    var evade, care := HealerEvade(s, env, c), HealerCare(s, env, c);
    assert HealerActions(s, env, c) == evade + care;
    assert forall a :: a in evade + care ==> a in evade || a in care;
    assert (evade + care)[..|evade|] == evade && (evade + care)[|evade|..] == care;
    if exists i :: i in s.injured && env.path(c.id, i.id).Some? {
      assert care[0] in care;
    }
    forall a | a in care && a.MoveTo? && !IsIdOf(a.target, s.injured) && s.enemySpawn.None?
      ensures IsIdOf(a.target, s.warriors)
    {
      assert FollowTarget(s, env, c).value in s.warriors;
    }
  }

  function HealerStep(s: Snapshot, env: Env): Creep -> seq<Action>
  {
    (c: Creep) => HealerActions(s, env, c)
  }

  /** `healerCreepAssignments`: each healer in turn. */
  function HealerPhase(s: Snapshot, env: Env): seq<Action>
  {
    ConcatMap(s.healers, HealerStep(s, env))
  }

  // ---------------------------------------------------------------- towers

  predicate HealCandidate(env: Env, t: StructureTower, i: Creep)
  {
    env.range(i.id, t.id) < 51 && i.hits < i.hitsMax
  }

  /** The head of the candidates stably sorted by hits: the first one with the fewest hits. */
  function FewestHits(cs: seq<Creep>): (k: nat)
    requires |cs| > 0
    ensures k < |cs|
    ensures forall j :: 0 <= j < |cs| ==> cs[k].hits <= cs[j].hits
    ensures forall j :: 0 <= j < k ==> cs[j].hits > cs[k].hits
  {
    if |cs| == 1 then 0
    else
      var k := FewestHits(cs[1..]) + 1;
      assert cs[k] == cs[1..][k - 1];
      assert forall j :: 1 <= j < |cs| ==> cs[j] == cs[1..][j - 1];
      if cs[0].hits <= cs[k].hits then 0 else k
  }

  /** The head of the tower's heal candidates sorted by hits: an injured creep in
      range and below max hits with the fewest hits; none exactly when there is no
      candidate. */
  function HealTarget(env: Env, t: StructureTower, injured: seq<Creep>): (r: Option<Creep>)
    ensures r.None? <==> forall i :: i in injured ==> !HealCandidate(env, t, i)
    ensures r.Some? ==> (r.value in injured && HealCandidate(env, t, r.value) &&
      forall j :: j in injured && HealCandidate(env, t, j) ==> r.value.hits <= j.hits)
  {
    var healTarget := Filter(injured, (i: Creep) => HealCandidate(env, t, i));
    if |healTarget| > 0 then
      var k := FewestHits(healTarget);
      assert healTarget[k] in healTarget;
      assert forall j :: j in healTarget ==> exists n :: 0 <= n < |healTarget| && healTarget[n] == j;
      Some(healTarget[k])
    else
      assert forall i :: i in injured ==> !HealCandidate(env, t, i);
      None
  }

  /** `towerProd(tower)`: attack the nearest enemy; with no enemy, heal the injured
      creep in range with the fewest hits. */
  function TowerActions(s: Snapshot, env: Env, t: StructureTower): (r: seq<Action>)
    ensures |r| <= 1 && forall a :: a in r ==> (a.TowerAttack? || a.TowerHeal?) && a.actor == t.id
    ensures |s.enemies| > 0 ==> (|r| == 1 && r[0].TowerAttack? &&
      exists e :: e in s.enemies && r[0].target == e.id &&
        forall f :: f in s.enemies ==> env.range(t.id, e.id) <= env.range(t.id, f.id))
    ensures |s.enemies| == 0 ==> (r == [] <==> forall i :: i in s.injured ==> !HealCandidate(env, t, i))
    ensures |s.enemies| == 0 && r != [] ==> (r[0].TowerHeal? &&
      exists i :: i in s.injured && HealCandidate(env, t, i) && r[0].target == i.id &&
        forall j :: j in s.injured && HealCandidate(env, t, j) ==> i.hits <= j.hits)
  {
    var target := ClosestCreepByRange(env, t.id, s.enemies);
    var heal := HealTarget(env, t, s.injured);
    if target.Some? then [TowerAttack(t.id, target.value.id)]
    else if heal.Some? then [TowerHeal(t.id, heal.value.id)]
    else []
  }

  // ---------------------------------------------------------------- a whole tick

  /** Every call `loop` issues in one tick, in order. */
  function TickActions(s: Snapshot, env: Env, ticks: nat, attacking: bool): seq<Action>
  {
    SpawnOrders(s, env) + WorkerPhase(s, env) + HealerPhase(s, env) + WarriorPhase(s, env, ticks, attacking)
  }

  predicate IsSpawnOrder(a: Action) { a.SpawnCreep? }

  /** Spawn orders: of a tick's calls, exactly the ones `spawnCreeps` makes: at most
      two, and none without an own spawn. */
  lemma {:induction false} TickSpawnOrders(s: Snapshot, env: Env, ticks: nat, attacking: bool)
    ensures Filter(TickActions(s, env, ticks, attacking), IsSpawnOrder) == SpawnOrders(s, env)
    ensures |Filter(TickActions(s, env, ticks, attacking), IsSpawnOrder)| <= 2
    ensures s.mySpawn.None? ==> Filter(TickActions(s, env, ticks, attacking), IsSpawnOrder) == []
  {
    var spawn, work, heal, war :=
      SpawnOrders(s, env), WorkerPhase(s, env), HealerPhase(s, env), WarriorPhase(s, env, ticks, attacking);
    WorkerPhaseActors(s, env);
    HealerPhaseActors(s, env);
    WarriorPhaseActors(s, env, ticks, attacking);
    FilterAppend(spawn + work + heal, war, IsSpawnOrder);
    FilterAppend(spawn + work, heal, IsSpawnOrder);
    FilterAppend(spawn, work, IsSpawnOrder);
    FilterNone(work, IsSpawnOrder);
    FilterNone(heal, IsSpawnOrder);
    FilterNone(war, IsSpawnOrder);
    FilterAll(spawn, IsSpawnOrder);
  }

  /** Every call of the worker phase is a worker's own order, and every move in it
      is the fallback of an out-of-range withdraw or transfer. */
  lemma WorkerPhaseActors(s: Snapshot, env: Env)
    ensures forall a :: a in WorkerPhase(s, env) ==> IsCreepOrder(a) && IsIdOf(a.actor, s.workers)
    ensures MovesOnlyAsFallback(WorkerPhase(s, env), env)
    ensures s.mySpawn.None? ==> WorkerPhase(s, env) == []
  {
    if s.mySpawn.Some? {
      var f := WorkerStep(s, env, s.mySpawn.value);
      forall x | x in s.workers
        ensures MovesOnlyAsFallback(f(x), env)
        ensures forall a :: a in f(x) ==> IsCreepOrder(a) && IsIdOf(a.actor, s.workers)
      {
        WorkerActionsProperties(s, env, s.mySpawn.value, x);
      }
      ConcatMapForall(s.workers, f, (a: Action) => IsCreepOrder(a) && IsIdOf(a.actor, s.workers));
      MovesOnlyAsFallbackConcat(s.workers, f, env);
    }
  }

  /** Every call of the healer phase is a healer's own order, and every heal is
      aimed at an own injured creep. */
  lemma HealerPhaseActors(s: Snapshot, env: Env)
    ensures forall a :: a in HealerPhase(s, env) ==> IsCreepOrder(a) && IsIdOf(a.actor, s.healers)
    ensures forall a :: a in HealerPhase(s, env) && (a.Heal? || a.RangedHeal?) ==> IsIdOf(a.target, s.injured)
  {
    var f := HealerStep(s, env);
    forall x | x in s.healers
      ensures forall a :: a in f(x) ==>
        IsCreepOrder(a) && IsIdOf(a.actor, s.healers) && ((a.Heal? || a.RangedHeal?) ==> IsIdOf(a.target, s.injured))
    {
      HealerActionsProperties(s, env, x);
    }
    ConcatMapForall(s.healers, f, (a: Action) =>
      IsCreepOrder(a) && IsIdOf(a.actor, s.healers) && ((a.Heal? || a.RangedHeal?) ==> IsIdOf(a.target, s.injured)));
  }

  /** Every call of the warrior phase is a warrior's own order; in stealthy mode it
      is only the leader's advance on the enemy spawn. */
  lemma WarriorPhaseActors(s: Snapshot, env: Env, ticks: nat, attacking: bool)
    ensures forall a :: a in WarriorPhase(s, env, ticks, attacking) ==> IsCreepOrder(a) && IsIdOf(a.actor, s.warriors)
    ensures !attacking ==> forall a :: a in WarriorPhase(s, env, ticks, attacking) ==>
      s.enemySpawn.Some? && Leader(s, env).Some? && a == MoveTo(Leader(s, env).value.id, s.enemySpawn.value.id)
  {
    if attacking {
      var f := WarriorStep(s, env, Leader(s, env));
      forall x | x in s.warriors
        ensures forall a :: a in f(x) ==> IsCreepOrder(a) && IsIdOf(a.actor, s.warriors)
      {
        WarriorActionsProperties(s, env, x, Leader(s, env));
      }
      ConcatMapForall(s.warriors, f, (a: Action) => IsCreepOrder(a) && IsIdOf(a.actor, s.warriors));
    } else {
      StealthyActionsProperties(s, env, ticks);
      forall a | a in WarriorPhase(s, env, ticks, attacking) ensures IsCreepOrder(a) && IsIdOf(a.actor, s.warriors) {
        assert Leader(s, env).value in s.warriors;
      }
    }
  }
}
