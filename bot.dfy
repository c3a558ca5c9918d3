/** The bot itself: `loop` and the assignment routines it calls, as a class whose
    state is the module-level variables the script keeps between and within ticks. */
module Arena {
  import opened Seqs
  import opened Game
  import opened Classification
  import opened SpawnPolicy
  import opened Roles
  import Parts

  /** The attack flag after a run of ticks whose switch conditions were `signals`,
      starting from `start`: once set it stays set. */
  function LatchAfter(start: bool, signals: seq<bool>): bool
  {
    if signals == [] then start else LatchAfter(start, signals[..|signals| - 1]) || signals[|signals| - 1]
  }

  /** One more tick's signal is or-ed into the flag. */
  lemma LatchStep(start: bool, signals: seq<bool>, b: bool)
    ensures LatchAfter(start, signals + [b]) == (LatchAfter(start, signals) || b)
  {
    assert (signals + [b])[..|signals|] == signals;
  }

  /** The bot is attacking exactly when some earlier tick met a switch condition. */
  lemma {:induction false} LatchIffSomeSignal(signals: seq<bool>)
    ensures LatchAfter(false, signals) <==> exists k :: 0 <= k < |signals| && signals[k]
  {
    if signals != [] {
      var init := signals[..|signals| - 1];
      LatchIffSomeSignal(init);
      if exists k :: 0 <= k < |init| && init[k] {
        var k :| 0 <= k < |init| && init[k];
        assert signals[k] == init[k];
      }
      if exists k :: 0 <= k < |signals| && signals[k] {
        var k :| 0 <= k < |signals| && signals[k];
        if k < |init| {
          assert init[k] == signals[k];
        }
      }
    }
  }

  /** Once attacking, always attacking: a longer history never clears the flag. */
  lemma {:induction false} LatchMonotone(signals: seq<bool>, i: nat, j: nat)
    requires i <= j <= |signals|
    ensures LatchAfter(false, signals[..i]) ==> LatchAfter(false, signals[..j])
    decreases j - i
  {
    if i < j {
      LatchMonotone(signals, i, j - 1);
      assert signals[..j][..j - 1] == signals[..j - 1];
    }
  }

  /** The bot only ever commands its own objects: spawn orders go to an own spawn and
      every other call is made by an own creep (towers are never commanded). */
  lemma OnlyOwnObjectsCommanded(w: World, env: Env, attacking: bool)
    ensures forall a :: a in TickActions(Classify(w), env, w.ticks, attacking) ==>
      (a.SpawnCreep? && exists sp :: sp in w.spawns && sp.my && sp.id == a.actor) ||
      (IsCreepOrder(a) && exists c :: c in w.creeps && c.my && c.id == a.actor)
  {
    var s := Classify(w);
    WorkerPhaseActors(s, env);
    HealerPhaseActors(s, env);
    WarriorPhaseActors(s, env, w.ticks, attacking);
    forall a | a in TickActions(s, env, w.ticks, attacking)
      ensures (a.SpawnCreep? && exists sp :: sp in w.spawns && sp.my && sp.id == a.actor) ||
        (IsCreepOrder(a) && exists c :: c in w.creeps && c.my && c.id == a.actor)
    {
      if a in SpawnOrders(s, env) {
        assert s.mySpawn.value in w.spawns;
      } else if a in WorkerPhase(s, env) {
        var c :| c in s.workers && c.id == a.actor;
        assert c in w.creeps;
      } else if a in HealerPhase(s, env) {
        var c :| c in s.healers && c.id == a.actor;
        assert c in w.creeps;
      } else {
        var c :| c in s.warriors && c.id == a.actor;
        assert c in w.creeps;
      }
    }
  }

  lemma AppendAssoc<T>(a: seq<T>, b: seq<T>, c: seq<T>)
    ensures a + (b + c) == (a + b) + c
  {
  }

  /** Regrouping the output of four successive phases. */
  lemma ConcatFour<T>(o: seq<T>, a: seq<T>, b: seq<T>, c: seq<T>, d: seq<T>)
    ensures (((o + a) + b) + c) + d == o + (((a + b) + c) + d)
  {
  }

  const NO_SNAPSHOT: Snapshot := Snapshot(None, [], [], [], [], [], [], [], [], None, [], [], [])

  class Bot {
    /** The flag `loop` sets and never clears. */
    var isAttacking: bool
    /** The sets `loop` rebuilds at the start of each tick. */
    var snapshot: Snapshot
    /** Every engine call made so far, in order. */
    var issued: seq<Action>
    /** The switch conditions of the ticks run so far. */
    ghost var signals: seq<bool>

    ghost predicate Valid()
      reads this
    {
      isAttacking == LatchAfter(false, signals)
    }

    constructor()
      ensures Valid() && !isAttacking && issued == [] && signals == []
    {
      isAttacking := false;
      snapshot := NO_SNAPSHOT;
      issued := [];
      signals := [];
    }

    /** Make an engine call whose status the bot ignores. */
    method Issue(a: Action)
      modifies this`issued
      ensures issued == old(issued) + [a]
    {
      issued := issued + [a];
    }

    /** Make an engine call and read back its status. */
    method Call(env: Env, a: Action) returns (st: Status)
      modifies this`issued
      ensures issued == old(issued) + [a] && st == env.outcome(a)
    {
      issued := issued + [a];
      st := env.outcome(a);
    }

    /** `flee`. */
    method Flee(env: Env, c: Creep, threats: seq<Creep>, range: nat)
      modifies this`issued
      ensures issued == old(issued) + FleeActions(env, c, threats, range)
    {
      var step := env.fleeStep(c.id, threats, range);
      if step.Some? {
        Issue(MoveDir(c.id, step.value));
      }
    }

    /** `spawnCreeps`. */
    method SpawnCreeps(env: Env)
      modifies this`issued
      ensures issued == old(issued) + SpawnOrders(snapshot, env)
    {
      var s := snapshot;
      if s.mySpawn.Some? {
        var sp := s.mySpawn.value;
        var distance: Option<nat> := None;
        var closest := ClosestContainer(env, sp.id, s.containers);
        if closest.Some? {
          distance := Some(env.range(sp.id, closest.value.id));
        }
        if |s.workers| < 4 {
          Issue(SpawnCreep(sp.id, WORKER_BODY));
        } else {
          if distance.Some? && distance.value != 0 && |s.workers| < 8 && distance.value > 4 {
            Issue(SpawnCreep(sp.id, WORKER_BODY));
          }
          var body;
          if |s.builders| < 0 {
            body := BUILDER_BODY;
          } else if |s.creeps| % 6 == 0 {
            body := HEALER_BODY;
          } else {
            body := WARRIOR_BODY;
          }
          Issue(SpawnCreep(sp.id, body));
        }
      }
    }

    /** A full worker's delivery: the tower loop, then the spawn. */
    method Deliver(env: Env, creep: Creep, sp: StructureSpawn)
      modifies this`issued
      ensures issued == old(issued) + DeliverActions(snapshot, env, sp, creep)
    {
      var s := snapshot;
      if |s.myTowers| > 0 {
        for j := 0 to |s.myTowers|
          invariant issued == old(issued) + ConcatMap(s.myTowers[..j], TowerStep(env, creep, sp))
        {
          var tower := s.myTowers[j];
          if tower.energy < 40 {
            Issue(Transfer(creep.id, tower.id));
          } else {
            var st := Call(env, Transfer(creep.id, sp.id));
            if st == ErrNotInRange {
              Issue(MoveTo(creep.id, sp.id));
            }
          }
          ConcatMapSnoc(s.myTowers, j, TowerStep(env, creep, sp));
          AppendAssoc(old(issued), ConcatMap(s.myTowers[..j], TowerStep(env, creep, sp)), TowerStep(env, creep, sp)(s.myTowers[j]));
        }
        assert s.myTowers[..|s.myTowers|] == s.myTowers;
      }
      var st := Call(env, Transfer(creep.id, sp.id));
      if st == ErrNotInRange {
        Issue(MoveTo(creep.id, sp.id));
      }
    }

    /** The container a worker serves: the nearest by path of those it may use. */
    method ChooseContainer(env: Env, creep: Creep) returns (container: Option<StructureContainer>)
      ensures container == WorkerTarget(snapshot, env, creep)
    {
      var s := snapshot;
      container := ClosestContainer(env, creep.id, EligibleContainers(s, env, creep));
    }

    /** One worker's turn of `workerCreepAssignments`. */
    method WorkerTurn(env: Env, creep: Creep, sp: StructureSpawn)
      modifies this`issued
      ensures issued == old(issued) + WorkerActions(snapshot, env, sp, creep)
    {
      var container := ChooseContainer(env, creep);
      if container.Some? {
        if creep.freeCapacity > 0 {
          var st := Call(env, Withdraw(creep.id, container.value.id));
          if st == ErrNotInRange {
            Issue(MoveTo(creep.id, container.value.id));
          }
        } else {
          Deliver(env, creep, sp);
        }
      }
    }

    /** `workerCreepAssignments`. */
    method WorkerCreepAssignments(env: Env)
      modifies this`issued
      ensures issued == old(issued) + WorkerPhase(snapshot, env)
    {
      var s := snapshot;
      if s.mySpawn.Some? {
        var sp := s.mySpawn.value;
        for i := 0 to |s.workers|
          invariant issued == old(issued) + ConcatMap(s.workers[..i], WorkerStep(s, env, sp))
        {
          WorkerTurn(env, s.workers[i], sp);
          ConcatMapSnoc(s.workers, i, WorkerStep(s, env, sp));
          AppendAssoc(old(issued), ConcatMap(s.workers[..i], WorkerStep(s, env, sp)), WorkerStep(s, env, sp)(s.workers[i]));
        }
        assert s.workers[..|s.workers|] == s.workers;
      }
    }

    /** One healer's turn of `healerCreepAssignments`. */
    method HealerTurn(env: Env, creep: Creep)
      modifies this`issued
      ensures issued == old(issued) + HealerActions(snapshot, env, creep)
    {
      var s := snapshot;
      HealerEvadeTurn(env, creep);
      HealerCareTurn(env, creep);
      AppendAssoc(old(issued), HealerEvade(s, env, creep), HealerCare(s, env, creep));
    }

    /** A healer's retreat from an armed enemy nearer than 5. */
    method HealerEvadeTurn(env: Env, creep: Creep)
      modifies this`issued
      ensures issued == old(issued) + HealerEvade(snapshot, env, creep)
    {
      var s := snapshot;
      var closestEnemy := ClosestCreep(env, creep.id, s.enemies);
      var enemyRange := 999;
      if closestEnemy.Some? {
        enemyRange := env.range(creep.id, closestEnemy.value.id);
      }
      if closestEnemy.Some? && IsArmed(closestEnemy.value) && enemyRange < 5 {
        Flee(env, creep, FindInRange(env, creep.id, s.enemies, 5), 5);
      }
    }

    /** The warrior a healer follows: the one nearest the healer, replaced by the one
        nearest the enemy spawn while that spawn stands. */
    method ChooseFollow(env: Env, creep: Creep) returns (closestWarrior: Option<Creep>)
      ensures closestWarrior == FollowTarget(snapshot, env, creep)
    {
      var s := snapshot;
      closestWarrior := ClosestCreep(env, creep.id, s.warriors);
      if s.enemySpawn.Some? {
        closestWarrior := ClosestCreep(env, s.enemySpawn.value.id, s.warriors);
      }
    }

    /** The rest of a healer's turn: pick the warrior to follow and the patient, then
        heal or move. */
    method HealerCareTurn(env: Env, creep: Creep)
      modifies this`issued
      ensures issued == old(issued) + HealerCare(snapshot, env, creep)
    {
      var s := snapshot;
      var closestWarrior := ChooseFollow(env, creep);
      var closestInjured := ClosestCreep(env, creep.id, s.injured);
      if |s.injured| > 0 {
        var outOfRange := false;
        if closestInjured.Some? {
          var st := Call(env, Heal(creep.id, closestInjured.value.id));
          outOfRange := st == ErrNotInRange;
        }
        if outOfRange {
          var st := Call(env, RangedHeal(creep.id, closestInjured.value.id));
          if st == ErrNotInRange {
            Issue(MoveTo(creep.id, closestInjured.value.id));
          }
        } else if closestWarrior.Some? {
          Issue(MoveTo(creep.id, closestWarrior.value.id));
        }
      } else if closestWarrior.Some? {
        Issue(MoveTo(creep.id, closestWarrior.value.id));
      }
    }

    /** `healerCreepAssignments`. */
    method HealerCreepAssignments(env: Env)
      modifies this`issued
      ensures issued == old(issued) + HealerPhase(snapshot, env)
    {
      var s := snapshot;
      for i := 0 to |s.healers|
        invariant issued == old(issued) + ConcatMap(s.healers[..i], HealerStep(s, env))
      {
        HealerTurn(env, s.healers[i]);
        assert HealerStep(s, env)(s.healers[i]) == HealerActions(s, env, s.healers[i]);
        ConcatMapSnoc(s.healers, i, HealerStep(s, env));
        AppendAssoc(old(issued), ConcatMap(s.healers[..i], HealerStep(s, env)), HealerStep(s, env)(s.healers[i]));
      }
      assert s.healers[..|s.healers|] == s.healers;
    }

    /** `attackCreeps`' choice of target. */
    method ChooseTarget(env: Env, creep: Creep) returns (closestEnemy: Option<Creep>)
      ensures closestEnemy == AttackTarget(snapshot, env, creep)
    {
      var s := snapshot;
      if |s.injuredEnemies| > 0 {
        var mobile := FindInRange(env, creep.id, Filter(s.injuredEnemies, HasLiveMove), 3);
        if |mobile| > 0 {
          closestEnemy := Some(mobile[0]);
        } else {
          closestEnemy := ClosestCreep(env, creep.id, s.enemies);
        }
      } else {
        closestEnemy := ClosestCreep(env, creep.id, s.enemies);
      }
    }

    /** `attackCreeps`. */
    method AttackCreeps(env: Env, creep: Creep, stayPut: bool)
      modifies this`issued
      ensures issued == old(issued) + AttackActions(snapshot, env, creep, stayPut)
    {
      var s := snapshot;
      var closestEnemy := ChooseTarget(env, creep);
      var enemyRange := 0;
      if closestEnemy.Some? {
        enemyRange := env.range(creep.id, closestEnemy.value.id);
      }
      if closestEnemy.Some? && HasPart(closestEnemy.value.body, Parts.Attack) && enemyRange < 4 {
        Flee(env, creep, FindInRange(env, creep.id, s.enemies, 5), 4);
      }
      ghost var afterEvade := issued;
      assert afterEvade == old(issued) + AttackEvade(s, env, creep, closestEnemy);
      AttackFightTurn(env, creep, closestEnemy, stayPut);
      AppendAssoc(old(issued), AttackEvade(s, env, creep, closestEnemy), AttackFight(s, env, creep, closestEnemy, stayPut));
    }

    /** The fight of `attackCreeps` against the chosen target. */
    method AttackFightTurn(env: Env, creep: Creep, closestEnemy: Option<Creep>, stayPut: bool)
      modifies this`issued
      ensures issued == old(issued) + AttackFight(snapshot, env, creep, closestEnemy, stayPut)
    {
      var s := snapshot;
      if |s.enemies| > 0 {
        var outOfRange := false;
        if closestEnemy.Some? {
          var st := Call(env, RangedAttack(creep.id, closestEnemy.value.id));
          outOfRange := st == ErrNotInRange;
        }
        if outOfRange {
          var st := Call(env, RangedAttack(creep.id, closestEnemy.value.id));
          if st == ErrNotInRange {
            Issue(MoveTo(creep.id, closestEnemy.value.id));
          }
        } else if s.enemySpawn.Some? && !stayPut {
          Issue(MoveTo(creep.id, s.enemySpawn.value.id));
        }
      }
    }

    /** Whether the squad leader holds its position: fewer than two other warriors or
        no other healer within 5 of it. */
    method ChooseStayPut(env: Env, creep: Creep, leader: Option<Creep>) returns (stayPut: bool)
      ensures stayPut == StayPut(snapshot, env, creep, leader)
    {
      var s := snapshot;
      stayPut := false;
      if leader.Some? && creep.id == leader.value.id {
        var warriorsNearby := |FindInRange(env, creep.id, OthersThan(s.warriors, leader.value.id), 5)|;
        var healersNearby := |FindInRange(env, creep.id, OthersThan(s.healers, leader.value.id), 5)|;
        stayPut := warriorsNearby < 2 || healersNearby < 1;
      }
    }

    /** One warrior's turn in attacking mode. */
    method WarriorTurn(env: Env, creep: Creep, leader: Option<Creep>)
      modifies this`issued
      ensures issued == old(issued) + WarriorActions(snapshot, env, creep, leader)
    {
      var s := snapshot;
      var stayPut := ChooseStayPut(env, creep, leader);
      var distance: Option<nat> := None;
      if s.enemySpawn.Some? {
        distance := Some(env.range(creep.id, s.enemySpawn.value.id));
      }
      if s.enemySpawn.Some? {
        if |s.enemies| > 0 && distance.Some? && distance.value != 0 && distance.value > 5 {
          AttackCreeps(env, creep, stayPut);
        } else {
          var st := Call(env, RangedAttack(creep.id, s.enemySpawn.value.id));
          ghost var afterShot := issued;
          if st == ErrNotInRange {
            AttackCreeps(env, creep, stayPut);
          }
          assert issued == afterShot + (if st == ErrNotInRange then AttackActions(s, env, creep, stayPut) else []);
          AppendAssoc(old(issued), [RangedAttack(creep.id, s.enemySpawn.value.id)],
            if st == ErrNotInRange then AttackActions(s, env, creep, stayPut) else []);
        }
      } else {
        AttackCreeps(env, creep, stayPut);
      }
    }

    /** The attacking pass of `warriorCreepAssignments`: every warrior's turn. */
    method AttackingPass(env: Env, leader: Option<Creep>)
      modifies this`issued
      ensures issued == old(issued) + ConcatMap(snapshot.warriors, WarriorStep(snapshot, env, leader))
    {
      var s := snapshot;
      for i := 0 to |s.warriors|
        invariant issued == old(issued) + ConcatMap(s.warriors[..i], WarriorStep(s, env, leader))
      {
        WarriorTurn(env, s.warriors[i], leader);
        ConcatMapSnoc(s.warriors, i, WarriorStep(s, env, leader));
        AppendAssoc(old(issued), ConcatMap(s.warriors[..i], WarriorStep(s, env, leader)), WarriorStep(s, env, leader)(s.warriors[i]));
      }
      assert s.warriors[..|s.warriors|] == s.warriors;
    }

    /** The stealthy pass of `warriorCreepAssignments`: the leader, met again in the
        loop over the warriors, advances once more. */
    method StealthyPass(leader: Option<Creep>)
      modifies this`issued
      ensures issued == old(issued) + ConcatMap(snapshot.warriors, AdvanceStep(snapshot, leader))
    {
      var s := snapshot;
      for i := 0 to |s.warriors|
        invariant issued == old(issued) + ConcatMap(s.warriors[..i], AdvanceStep(s, leader))
      {
        var creep := s.warriors[i];
        if leader.Some? && creep.id == leader.value.id {
          if s.enemySpawn.Some? {
            Issue(MoveTo(creep.id, s.enemySpawn.value.id));
          }
        }
        ConcatMapSnoc(s.warriors, i, AdvanceStep(s, leader));
        AppendAssoc(old(issued), ConcatMap(s.warriors[..i], AdvanceStep(s, leader)), AdvanceStep(s, leader)(s.warriors[i]));
      }
      assert s.warriors[..|s.warriors|] == s.warriors;
    }

    /** `warriorCreepAssignments(isAttacking)`. */
    method WarriorCreepAssignments(env: Env, ticks: nat, attacking: bool)
      modifies this`issued
      ensures issued == old(issued) + WarriorPhase(snapshot, env, ticks, attacking)
    {
      var s := snapshot;
      var leader: Option<Creep> := None;
      if s.enemySpawn.Some? {
        leader := ClosestCreep(env, s.enemySpawn.value.id, s.warriors);
      }
      assert leader == Leader(s, env);
      if attacking {
        AttackingPass(env, leader);
      } else if ticks % 25 == 0 {
        if s.enemySpawn.Some? && leader.Some? {
          Issue(MoveTo(leader.value.id, s.enemySpawn.value.id));
        }
        ghost var head := if s.enemySpawn.Some? && leader.Some? then [MoveTo(leader.value.id, s.enemySpawn.value.id)] else [];
        assert issued == old(issued) + head;
        StealthyPass(leader);
        AppendAssoc(old(issued), head, ConcatMap(s.warriors, AdvanceStep(s, leader)));
      }
    }

    /** `towerProd(tower)`. */
    method TowerProd(env: Env, tower: StructureTower)
      modifies this`issued
      ensures issued == old(issued) + TowerActions(snapshot, env, tower)
    {
      var s := snapshot;
      var target := ClosestCreepByRange(env, tower.id, s.enemies);
      var healTarget := Filter(s.injured, (i: Creep) => HealCandidate(env, tower, i));
      if target.Some? {
        Issue(TowerAttack(tower.id, target.value.id));
      } else if |healTarget| > 0 {
        Issue(TowerHeal(tower.id, healTarget[FewestHits(healTarget)].id));
      }
    }

    /** The middle of `loop`: the three tests that switch the army to attacking. */
    method AttackTests(env: Env) returns (signal: bool)
      ensures signal == AttackSignal(snapshot, env)
    {
      var s := snapshot;
      signal := false;
      if |s.injured| > 0 {
        signal := true;
      }
      if s.mySpawn.Some? {
        var sp := s.mySpawn.value;
        var distance: Option<nat> := None;
        var closest := ClosestContainer(env, sp.id, s.containers);
        if closest.Some? {
          distance := Some(env.range(sp.id, closest.value.id));
        }
        if distance.Some? && distance.value != 0 && distance.value > 4 {
          signal := true;
        }
        if |s.enemies| > 0 {
          var closestEnemy := ClosestCreep(env, sp.id, s.enemies);
          if closestEnemy.Some? {
            var enemyDistance := env.range(sp.id, closestEnemy.value.id);
            if enemyDistance < 20 {
              signal := true;
            }
          }
        }
      }
    }

    /** Latch the attack flag on this tick's signal. */
    method UpdateAttackFlag(env: Env)
      requires Valid()
      modifies this`isAttacking, this`signals
      ensures Valid()
      ensures signals == old(signals) + [AttackSignal(snapshot, env)]
      ensures isAttacking == (old(isAttacking) || AttackSignal(snapshot, env))
    {
      var signal := AttackTests(env);
      if signal {
        isAttacking := true;
      }
      signals := signals + [signal];
      LatchStep(false, old(signals), signal);
    }

    /** `loop`: rebuild the snapshot, spawn, run workers and healers, update the
        attack flag, then run the warriors under the updated flag. */
    method Loop(w: World, env: Env)
      requires Valid()
      modifies this
      ensures Valid()
      ensures snapshot == Classify(w)
      ensures signals == old(signals) + [AttackSignal(snapshot, env)]
      ensures isAttacking == (old(isAttacking) || AttackSignal(snapshot, env))
      ensures issued == old(issued) + TickActions(snapshot, env, w.ticks, isAttacking)
    {
      snapshot := Classify(w);
      var s := snapshot;
      SpawnCreeps(env);
      WorkerCreepAssignments(env);
      HealerCreepAssignments(env);
      UpdateAttackFlag(env);
      WarriorCreepAssignments(env, w.ticks, isAttacking);
      ConcatFour(old(issued), SpawnOrders(s, env), WorkerPhase(s, env), HealerPhase(s, env),
        WarriorPhase(s, env, w.ticks, isAttacking));
    }
  }
}
