# Screeps Arena "spawn and swamp" bot, modelled in Dafny

This project models the decision logic of the per-tick bot in
`src/arena_alpha_spawn_and_swamp/main.ts`. That bot plays a Screeps Arena match. Each tick, `loop` does the following:

- It rebuilds a snapshot of the visible objects, splitting them into own and enemy creeps by role and health.
- It orders new creeps from the own spawn.
- It runs the workers, which haul energy from containers to towers and the spawn.
- It runs the healers, which heal injured creeps or follow the squad.
- It latches the `isAttacking` flag.
- It runs the warriors. In stealthy mode only the squad leader advances, every 25th tick. In attacking mode every warrior shoots the enemy spawn or fights enemy creeps, with a retreat and a "stay put" rule for the leader.

The engine is not modelled. Ranges, path lengths, the status returned by each call and the first step of a flee path all come from an `Env` value that the model reads and never computes. The bot's behaviour is the sequence of engine calls it issues (`Action`). Each routine is written twice, once in each of these forms:

- **Specification functions** in `Roles`. Example: `WorkerActions` gives the calls one worker makes. Their properties are proved as lemmas.
- **Imperative methods** of the class `Arena.Bot`. The class holds the script's module-level state: the snapshot, the attack flag and the log of issued calls. Its methods follow the source's loops and branches call by call. The `ensures` of each method says that it appends exactly what the specification function gives.

Modules:

- `Seqs`: filter, a closest-element search, the output of a `for` loop (`ConcatMap`) and their lemmas.
- `Game`: the objects, actions and engine services, plus the creep bodies.
- `Classification`: the snapshot.
- `SpawnPolicy`: `spawnCreeps` and the attack signal.
- `Roles`: the per-creep rules and one tick's calls.
- `Arena`: the `Bot` class and the attack latch.

Points where the code does something one might not expect (the model follows the code):

- `isAttacking` is never reset, so it is a latch across ticks, not a per-tick decision (main.ts:44, 80-107).
- `spawnCreeps` can issue two orders in one tick: an extra worker plus a healer or a warrior.
- The healer order is chosen by `creeps.length % 6 == 0`, not by a healer quota.
- The container distance that drives the spawn ladder and the attack switch is `getRange` to the container nearest by path.
- The enemy clause is `getRange` under 20 to the enemy nearest by path.
- Stealthy mode only moves the leader. There is no regrouping and no retreat.
- Healers try a touch heal, then a ranged heal, then a move.

## Model

| member | source | states |
|---|---|---|
| Classification.FirstSpawn | src/arena_alpha_spawn_and_swamp/main.ts:48 | `find` on the spawns: the result is a spawn of the requested side with no earlier spawn of that side; None exactly when no spawn is of that side |
| Classification.Classify | src/arena_alpha_spawn_and_swamp/main.ts:48-61 | each set of the snapshot holds exactly the objects its filter admits: workers are own creeps with CARRY, builders own creeps with WORK, warriors own creeps with ATTACK or RANGED_ATTACK, healers own creeps with HEAL; injured are own creeps with hitsMax > 0 and 5·hits < 3·hitsMax; containers hold energy and are not own; enemy sets are the non-own creeps, those with CARRY, those below hitsMax |
| Classification.HealthRatioExact | src/arena_alpha_spawn_and_swamp/main.ts:56 | the integer injury test agrees with the real-valued ratio `hits / hitsMax < 0.6` for every positive hitsMax |
| Classification.ClassifyIdempotent | src/arena_alpha_spawn_and_swamp/main.ts:50-61 | classifying again the creeps the classification found (own creeps, then enemies) gives the same snapshot |
| Classification.SnapshotPartition | src/arena_alpha_spawn_and_swamp/main.ts:50-61 | every own role set lies within the own creeps, every enemy set within the enemies, and no creep is both own and enemy |
| Game.FindInRange | src/arena_alpha_spawn_and_swamp/main.ts:193 | `findInRange`: exactly the candidates at range at most r, and never more of them than were given |
| Game.ClosestCreep | src/arena_alpha_spawn_and_swamp/main.ts:189 | `findClosestByPath`: a reachable candidate whose path is no longer than any other reachable candidate's; None exactly when no candidate is reachable |
| Game.ClosestContainer | src/arena_alpha_spawn_and_swamp/main.ts:150 | `findClosestByPath` over containers, with the same guarantee |
| Game.ClosestCreepByRange | src/arena_alpha_spawn_and_swamp/main.ts:294 | `findClosestByRange`: a candidate at least as near as any other; None exactly when there are no candidates |
| SpawnPolicy.ContainerDistance | src/arena_alpha_spawn_and_swamp/main.ts:115-120 | present exactly when there is an own spawn and a reachable container; it is then the range to a container nearest by path |
| SpawnPolicy.SpawnOrders | src/arena_alpha_spawn_and_swamp/main.ts:113-144 | no order without an own spawn; otherwise one or two orders, all from the own spawn; with fewer than 4 workers exactly one worker order; otherwise the last order is a healer exactly when `creeps.length % 6 == 0` (else a warrior), and there are two orders, the first a worker, exactly when the container is further than 4 and there are fewer than 8 workers; the builder body is never ordered |
| SpawnPolicy.NearestEnemyRange | src/arena_alpha_spawn_and_swamp/main.ts:99-106 | present only with an own spawn, and then it is the range to an enemy reachable from the spawn whose path is no longer than any other reachable enemy's; absent exactly when there is no own spawn or no enemy can be reached |
| SpawnPolicy.AttackSignal | src/arena_alpha_spawn_and_swamp/main.ts:80-107 | an injured own creep always fires the signal; without an own spawn only an injury does; with no enemies the enemy clause never fires; a signal without injury comes from the container nearest the spawn by path being further than 4, or the enemy nearest the spawn by path being nearer than 20 |
| Roles.FleeActionsProperties | src/arena_alpha_spawn_and_swamp/main.ts:332-342 | `flee` issues at most one directional move by the creep, exactly when the flee path has a first step |
| Roles.EligibleContainers | src/arena_alpha_spawn_and_swamp/main.ts:150-155 | the decay filter keeps exactly the containers with no (or zero) decay countdown and the ones nearer than their ticks to decay |
| Roles.WorkerTarget | src/arena_alpha_spawn_and_swamp/main.ts:150-156 | the worker's container is eligible and reachable, no eligible container has a shorter path, and there is none exactly when no eligible container is reachable |
| Roles.TowerTransferProperties | src/arena_alpha_spawn_and_swamp/main.ts:163-173 | a tower under 40 energy gets exactly one transfer; otherwise the worker transfers to the spawn, moving to it only after "not in range" |
| Roles.DeliverActionsProperties | src/arena_alpha_spawn_and_swamp/main.ts:161-180 | a full worker only transfers to the spawn or to towers under 40 energy, only moves toward the spawn, and always transfers to the spawn; every move is an out-of-range fallback; the last call is the spawn transfer or the move to the spawn, and it is the move exactly when the spawn transfer is out of range, the transfer then coming just before it |
| Roles.WorkerActionsProperties | src/arena_alpha_spawn_and_swamp/main.ts:149-182 | a worker acts exactly when it has a target container; with free capacity its first call is the withdrawal from that container, a second call comes exactly when the withdrawal is out of range, and that call is the move to the container; it never transfers then; when full it does exactly the delivery, transfers to the spawn, and ends with the move to the spawn exactly when that transfer is out of range |
| Roles.WorkerPhaseActors | src/arena_alpha_spawn_and_swamp/main.ts:147-183 | all calls of the worker pass are workers' own creep orders, every move is an out-of-range fallback, and nothing happens without an own spawn |
| Roles.Leader | src/arena_alpha_spawn_and_swamp/main.ts:223 | the leader is the warrior with the shortest path to the enemy spawn; there is none while the enemy spawn is missing, or when no warrior can reach it |
| Roles.OthersThan | src/arena_alpha_spawn_and_swamp/main.ts:228-229 | exactly the creeps whose id differs from the leader's |
| Roles.StayPut | src/arena_alpha_spawn_and_swamp/main.ts:226-232 | only the leader can hold; the leader holds exactly when fewer than 2 other warriors are within 5 or no other healer is within 5 |
| Roles.AttackTarget | src/arena_alpha_spawn_and_swamp/main.ts:305-316 | when some injured enemy with a live MOVE part is within 3, the target is such an enemy; otherwise it is the enemy nearest by path; the target is always an enemy |
| Roles.AttackTargetFirst | src/arena_alpha_spawn_and_swamp/main.ts:307-310 | when some injured enemy with a live MOVE part is within 3, the target is the first such enemy in the injured-enemy list (`mobileEnemyCreeps[0]`) |
| Roles.AttackEvadeProperties | src/arena_alpha_spawn_and_swamp/main.ts:317-320 | the retreat is at most one directional move, and it happens only from a target with an ATTACK part nearer than 4; with such a target it is exactly the flee from the enemies within 5 at distance 4 |
| Roles.AttackFightProperties | src/arena_alpha_spawn_and_swamp/main.ts:321-329 | nothing without enemies; with a target, a shot reported out of range is repeated and followed by the move to the target, giving exactly those three calls; a shot in range is followed only by the move to the enemy spawn, made exactly when that spawn stands and the creep is not holding; only the target is shot, no call is a sideways move, and a move to the target comes only after an out-of-range shot |
| Roles.AttackActionsCalls | src/arena_alpha_spawn_and_swamp/main.ts:304-330 | at most 4 calls, all the creep's own; only the target is shot; without enemies the only calls are sideways moves |
| Roles.AttackActionsMoves | src/arena_alpha_spawn_and_swamp/main.ts:321-329 | an out-of-range shot at the target is followed by a move to it; a holding creep moves to nothing else; a creep that is not holding moves to the enemy spawn whenever enemies exist and the shot did not need to close in |
| Roles.AttackActionsSidestep | src/arena_alpha_spawn_and_swamp/main.ts:317-320 | every sideways move of `attackCreeps` is the retreat from a target with an ATTACK part nearer than 4 |
| Roles.AttackActionsFleeFirst | src/arena_alpha_spawn_and_swamp/main.ts:317-320 | a target with an ATTACK part nearer than 4 makes `attackCreeps` begin with the flee from the enemies within 5 at distance 4 |
| Roles.AttackActionsProperties | src/arena_alpha_spawn_and_swamp/main.ts:304-330 | `attackCreeps` as a whole: at most 4 calls, all the creep's own; only its target is shot; sideways moves only away from a melee target nearer than 4; an out-of-range shot at the target leads to a move to it, and a holding creep moves only that way; a creep that is not holding advances on the enemy spawn whenever it had no need to close in; a melee target nearer than 4 makes the calls start with the flee |
| Roles.WarriorActionsProperties | src/arena_alpha_spawn_and_swamp/main.ts:234-249 | with the enemy spawn standing and either no enemies or the spawn within 5, the first call is the shot at the spawn, nothing follows an in-range shot, and an out-of-range shot is followed by exactly `attackCreeps`; with the enemy spawn gone, or enemies about and the spawn further than 5, the warrior does exactly `attackCreeps`; only the spawn or the creep target is shot; a holding warrior moves only toward its target |
| Roles.StealthyActionsProperties | src/arena_alpha_spawn_and_swamp/main.ts:252-261 | stealthy mode does nothing off the 25-tick beat; on the beat every call is the leader's move on the enemy spawn, and there is at least one when a leader exists |
| Roles.WarriorPhaseActors | src/arena_alpha_spawn_and_swamp/main.ts:213-263 | all calls of the warrior pass are warriors' own orders; in stealthy mode they are only the leader's advance |
| Roles.HealerEvadeProperties | src/arena_alpha_spawn_and_swamp/main.ts:187-194 | a healer steps aside at most once, and only when the enemy nearest by path is armed and nearer than 5; in that case the retreat is exactly the flee from the enemies within 5 at distance 5 |
| Roles.FollowTarget | src/arena_alpha_spawn_and_swamp/main.ts:195-197 | the followed warrior is the leader while the enemy spawn stands, otherwise the warrior nearest the healer; it is a warrior |
| Roles.TreatActionsProperties | src/arena_alpha_spawn_and_swamp/main.ts:201-206 | the chain starts with the touch heal on the patient; after a touch heal out of range comes the ranged heal, and a third call, the move to the patient, exactly when the ranged heal is out of range too; otherwise the touch heal is followed by exactly the follow moves |
| Roles.HealerCareChain | src/arena_alpha_spawn_and_swamp/main.ts:196-206 | when some injured creep is reachable, the care starts with the touch heal on the injured creep nearest by path, then follows the ranged-heal and move fallbacks or the follow move exactly as the outcomes decide |
| Roles.HealerCareProperties | src/arena_alpha_spawn_and_swamp/main.ts:195-209 | heals go only to own injured creeps, and there are none when nobody is injured; a ranged heal comes only after an out-of-range touch heal; moves go to an injured creep or to the followed warrior; a reachable injured creep makes the first call the touch heal on the one nearest by path; with no injured creep reachable the care is exactly the move to the followed warrior |
| Roles.HealerActionsProperties | src/arena_alpha_spawn_and_swamp/main.ts:186-210 | one healer: at most 4 calls, all its own; heals only to injured own creeps, and none when nobody is injured; the touch, ranged and move fallback order; a retreat only when the enemy nearest by path is armed and nearer than 5, and then the calls start with the flee; after the retreat come exactly the care calls; a reachable injured creep gets the touch heal on the one nearest by path |
| Roles.HealerPhaseActors | src/arena_alpha_spawn_and_swamp/main.ts:185-211 | all calls of the healer pass are healers' own orders, and every heal is aimed at an own injured creep |
| Roles.FewestHits | src/arena_alpha_spawn_and_swamp/main.ts:295 | the head of the candidates after a stable sort by hits: a creep with the fewest hits, and no earlier creep with as few |
| Roles.TowerActions | src/arena_alpha_spawn_and_swamp/main.ts:293-303 | at most one tower call; with enemies, an attack on an enemy nearest by range; without enemies, a heal exactly when some injured creep is within 50 and below max hits, aimed at one with the fewest hits among those |
| Roles.HealTarget | src/arena_alpha_spawn_and_swamp/main.ts:295 | the head of the sorted heal candidates: an injured creep within 50 and below max hits with no more hits than any other candidate; none exactly when there is no candidate |
| Roles.TickSpawnOrders | src/arena_alpha_spawn_and_swamp/main.ts:74-110 | of all calls in a tick, the spawn orders are exactly those of `spawnCreeps`: at most two, and none without an own spawn |
| Arena.LatchStep | src/arena_alpha_spawn_and_swamp/main.ts:80-107 | one more tick ors its signal into the flag |
| Arena.LatchIffSomeSignal | src/arena_alpha_spawn_and_swamp/main.ts:44-107 | starting from false, the flag is set exactly when some tick so far met a switch condition |
| Arena.LatchMonotone | src/arena_alpha_spawn_and_swamp/main.ts:44-107 | once set, the flag stays set in every later tick |
| Arena.OnlyOwnObjectsCommanded | src/arena_alpha_spawn_and_swamp/main.ts:46-111 | every call of a tick is a spawn order by an own spawn or a creep order by an own creep; towers are never commanded |
| Arena.Bot.constructor | src/arena_alpha_spawn_and_swamp/main.ts:44 | the flag starts false, with no calls and no ticks |
| Arena.Bot.Flee | src/arena_alpha_spawn_and_swamp/main.ts:332-342 | appends exactly `FleeActions` |
| Arena.Bot.SpawnCreeps | src/arena_alpha_spawn_and_swamp/main.ts:113-144 | appends exactly `SpawnOrders` |
| Arena.Bot.Deliver | src/arena_alpha_spawn_and_swamp/main.ts:162-179 | the tower loop then the spawn delivery, appending exactly `DeliverActions` |
| Arena.Bot.ChooseContainer | src/arena_alpha_spawn_and_swamp/main.ts:150-155 | picks the `WorkerTarget` container |
| Arena.Bot.WorkerTurn | src/arena_alpha_spawn_and_swamp/main.ts:150-181 | appends exactly `WorkerActions` for the worker |
| Arena.Bot.WorkerCreepAssignments | src/arena_alpha_spawn_and_swamp/main.ts:147-183 | the worker loop appends exactly `WorkerPhase` |
| Arena.Bot.HealerTurn | src/arena_alpha_spawn_and_swamp/main.ts:186-210 | appends exactly `HealerActions` for the healer |
| Arena.Bot.HealerEvadeTurn | src/arena_alpha_spawn_and_swamp/main.ts:187-194 | appends exactly `HealerEvade` |
| Arena.Bot.ChooseFollow | src/arena_alpha_spawn_and_swamp/main.ts:195-197 | picks the `FollowTarget` warrior |
| Arena.Bot.HealerCareTurn | src/arena_alpha_spawn_and_swamp/main.ts:195-209 | appends exactly `HealerCare` |
| Arena.Bot.HealerCreepAssignments | src/arena_alpha_spawn_and_swamp/main.ts:185-211 | the healer loop appends exactly `HealerPhase` |
| Arena.Bot.ChooseTarget | src/arena_alpha_spawn_and_swamp/main.ts:305-316 | picks the `AttackTarget` enemy |
| Arena.Bot.AttackCreeps | src/arena_alpha_spawn_and_swamp/main.ts:304-330 | appends exactly `AttackActions` |
| Arena.Bot.AttackFightTurn | src/arena_alpha_spawn_and_swamp/main.ts:321-329 | appends exactly `AttackFight` |
| Arena.Bot.ChooseStayPut | src/arena_alpha_spawn_and_swamp/main.ts:226-232 | computes `StayPut` |
| Arena.Bot.WarriorTurn | src/arena_alpha_spawn_and_swamp/main.ts:226-249 | appends exactly `WarriorActions` for the warrior |
| Arena.Bot.AttackingPass | src/arena_alpha_spawn_and_swamp/main.ts:225-250 | the attacking loop appends each warrior's `WarriorActions` in order |
| Arena.Bot.StealthyPass | src/arena_alpha_spawn_and_swamp/main.ts:256-260 | the stealthy loop appends the leader's repeated advance |
| Arena.Bot.WarriorCreepAssignments | src/arena_alpha_spawn_and_swamp/main.ts:213-263 | appends exactly `WarriorPhase` for the flag and the tick |
| Arena.Bot.TowerProd | src/arena_alpha_spawn_and_swamp/main.ts:293-303 | appends exactly `TowerActions` |
| Arena.Bot.AttackTests | src/arena_alpha_spawn_and_swamp/main.ts:80-107 | computes `AttackSignal` |
| Arena.Bot.UpdateAttackFlag | src/arena_alpha_spawn_and_swamp/main.ts:80-107 | ors the tick's signal into the flag, keeping the flag equal to the latch over all signals so far |
| Arena.Bot.Loop | src/arena_alpha_spawn_and_swamp/main.ts:46-111 | rebuilds the snapshot as `Classify`, sets the flag to its old value or this tick's signal, keeps the latch invariant, and appends exactly `TickActions`: spawn orders, workers, healers, then warriors under the updated flag |

## Left out

- Engine queries are inputs, not algorithms. This covers `getObjectsByPrototype`, `getRange`/`getRangeTo`, path lengths and the status codes of calls. `findClosestByPath` and `findClosestByRange` are modelled as a search that returns a nearest candidate, with the earliest candidate winning a tie. The engine's own tie-break is not known, and no proved property depends on it.
- A status code is taken to depend only on the call. The second `rangedAttack` at main.ts:323 therefore gets the same answer as the first.
- `flee` internals (`searchPath` in flee mode, `getDirection`): only the direction of the first path step is modelled, and it is an input.
- What calls do in the game (spawning, energy transfer, combat, movement) is engine-side. The model records the calls only.
- `builderCreepAssignments` (main.ts:265-291) is never called. It depends on `runElseMove` from the `tool` module, which is not part of this model, and on `createConstructionSite`.
- `towerProd` is modelled (`Roles.TowerActions`, `Arena.Bot.TowerProd`), but `loop` never calls it, because its call is commented out at main.ts:79.
- `console.log` diagnostics are output only. So is the decay countdown printed at main.ts:93.
- The unused per-creep fields (`initialPos`, `target`, `myHealers`, `historyHits`, `state`) and the unused `CreepState` enum are left out.
- The health ratio is not modelled in floating point. The integer cross-multiplication is proved equal to the real-valued ratio (`Classification.HealthRatioExact`).
