/** The spawn's production ladder (`spawnCreeps`) and the three conditions under
    which `loop` switches the army to attacking. */
module SpawnPolicy {
  import opened Seqs
  import opened Game
  import opened Classification

  /** `getRange(mySpawn, mySpawn.findClosestByPath(containers))`, or None when there is
      no own spawn or no container can be reached. */
  function ContainerDistance(s: Snapshot, env: Env): (d: Option<nat>)
    ensures d.Some? <==> s.mySpawn.Some? && exists k :: k in s.containers && env.path(s.mySpawn.value.id, k.id).Some?
    ensures d.Some? ==> (
      s.mySpawn.Some? &&
      exists k :: k in s.containers && d.value == env.range(s.mySpawn.value.id, k.id) && env.path(s.mySpawn.value.id, k.id).Some? &&
        forall k' :: k' in s.containers && env.path(s.mySpawn.value.id, k'.id).Some? ==>
          env.path(s.mySpawn.value.id, k.id).value <= env.path(s.mySpawn.value.id, k'.id).value)
  {
    match s.mySpawn
    case None => None
    case Some(sp) =>
      match ClosestContainer(env, sp.id, s.containers)
      case None => None
      case Some(k) => Some(env.range(sp.id, k.id))
  }

  /** The nearest container by path is more than 4 tiles from the spawn. */
  predicate ContainerFar(s: Snapshot, env: Env)
  {
    var d := ContainerDistance(s, env);
    d.Some? && d.value > 4
  }

  /** The spawn orders `spawnCreeps` issues in one tick. */
  function SpawnOrders(s: Snapshot, env: Env): (r: seq<Action>)
    ensures s.mySpawn.None? ==> r == []
    ensures s.mySpawn.Some? ==> 1 <= |r| <= 2 && forall a :: a in r ==> a.SpawnCreep? && a.actor == s.mySpawn.value.id
    ensures s.mySpawn.Some? && |s.workers| < 4 ==> r == [SpawnCreep(s.mySpawn.value.id, WORKER_BODY)]
    ensures s.mySpawn.Some? && |s.workers| >= 4 ==>
      r[|r| - 1].body == (if |s.creeps| % 6 == 0 then HEALER_BODY else WARRIOR_BODY)
    ensures s.mySpawn.Some? && |s.workers| >= 4 ==>
      (|r| == 2 <==> ContainerFar(s, env) && |s.workers| < 8) && (|r| == 2 ==> r[0].body == WORKER_BODY)
    ensures forall a :: a in r ==> a.body != BUILDER_BODY
  {
    match s.mySpawn
    case None => []
    case Some(sp) =>
      var dist := ContainerDistance(s, env);
      if |s.workers| < 4 then [SpawnCreep(sp.id, WORKER_BODY)]
      else
        (if dist.Some? && dist.value != 0 && |s.workers| < 8 && dist.value > 4 then [SpawnCreep(sp.id, WORKER_BODY)] else []) +
        (if |s.builders| < 0 then [SpawnCreep(sp.id, BUILDER_BODY)]
         else if |s.creeps| % 6 == 0 then [SpawnCreep(sp.id, HEALER_BODY)]
         else [SpawnCreep(sp.id, WARRIOR_BODY)])
  }

  /** `getRange(mySpawn, mySpawn.findClosestByPath(enemyCreeps))`, when there is an own
      spawn and a reachable enemy. */
  function NearestEnemyRange(s: Snapshot, env: Env): (d: Option<nat>)
    ensures d.Some? ==> (
      s.mySpawn.Some? &&
      exists e :: e in s.enemies && d.value == env.range(s.mySpawn.value.id, e.id) && env.path(s.mySpawn.value.id, e.id).Some? &&
        forall e' :: e' in s.enemies && env.path(s.mySpawn.value.id, e'.id).Some? ==>
          env.path(s.mySpawn.value.id, e.id).value <= env.path(s.mySpawn.value.id, e'.id).value)
    ensures d.None? <==> s.mySpawn.None? || forall e :: e in s.enemies ==> env.path(s.mySpawn.value.id, e.id).None?
  {
    match s.mySpawn
    case None => None
    case Some(sp) =>
      if |s.enemies| > 0 then
        match ClosestCreep(env, sp.id, s.enemies)
        case None => None
        case Some(e) => Some(env.range(sp.id, e.id))
      else None
  }

  /** This tick's reason to switch to attacking: an own creep is injured, the nearest
      container by path is more than 4 away, or the nearest enemy by path is within 20
      of the spawn. It fires only for one of these reasons, and with no enemy in sight the enemy
      clause never fires. */
  predicate AttackSignal(s: Snapshot, env: Env)
    ensures |s.injured| > 0 ==> AttackSignal(s, env)
    ensures s.mySpawn.None? ==> (AttackSignal(s, env) <==> |s.injured| > 0)
    ensures |s.enemies| == 0 ==> (AttackSignal(s, env) <==> |s.injured| > 0 || ContainerFar(s, env))
    ensures AttackSignal(s, env) && |s.injured| == 0 ==> (
      s.mySpawn.Some? &&
      ((exists k :: k in s.containers && env.range(s.mySpawn.value.id, k.id) > 4 && env.path(s.mySpawn.value.id, k.id).Some? &&
          forall k' :: k' in s.containers && env.path(s.mySpawn.value.id, k'.id).Some? ==>
            env.path(s.mySpawn.value.id, k.id).value <= env.path(s.mySpawn.value.id, k'.id).value) ||
       (exists e :: e in s.enemies && env.range(s.mySpawn.value.id, e.id) < 20 && env.path(s.mySpawn.value.id, e.id).Some? &&
          forall e' :: e' in s.enemies && env.path(s.mySpawn.value.id, e'.id).Some? ==>
            env.path(s.mySpawn.value.id, e.id).value <= env.path(s.mySpawn.value.id, e'.id).value)))
  {
    |s.injured| > 0 || ContainerFar(s, env) ||
    (var d := NearestEnemyRange(s, env); d.Some? && d.value < 20)
  }
}
