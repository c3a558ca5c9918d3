/** The snapshot the bot rebuilds at the start of every tick: the visible
    objects split into own and enemy sets by role and health. */
module Classification {
  import opened Seqs
  import opened Game
  import Parts

  predicate IsOwn(c: Creep) { c.my }
  predicate IsEnemy(c: Creep) { !c.my }
  predicate IsBuilder(c: Creep) { c.my && HasPart(c.body, Parts.Work) }
  predicate IsWorker(c: Creep) { c.my && HasPart(c.body, Parts.Carry) }

  /** The creep carries a melee or a ranged attack part. */
  predicate IsArmed(c: Creep) { HasPart(c.body, Parts.Attack) || HasPart(c.body, Parts.RangedAttack) }

  predicate IsWarrior(c: Creep) { c.my && IsArmed(c) }
  predicate IsHealer(c: Creep) { c.my && HasPart(c.body, Parts.Heal) }

  /** `hits / hitsMax < 0.6` on integers: a zero `hitsMax` gives NaN or Infinity,
      which is never below 0.6. */
  predicate BelowHealthRatio(hits: nat, hitsMax: nat) { hitsMax > 0 && 5 * hits < 3 * hitsMax }

  predicate IsInjured(c: Creep) { c.my && BelowHealthRatio(c.hits, c.hitsMax) }
  predicate IsEnemyWorker(c: Creep) { !c.my && HasPart(c.body, Parts.Carry) }
  predicate IsInjuredEnemy(c: Creep) { !c.my && c.hits < c.hitsMax }

  /** A container worth harvesting: it holds energy and is not ours. */
  predicate IsStocked(k: StructureContainer) { k.usedEnergy > 0 && !k.my }

  predicate IsOwnTower(t: StructureTower) { t.my }

  /** The tick's classified sets; each keeps the engine's listing order. */
  datatype Snapshot = Snapshot(
    mySpawn: Option<StructureSpawn>,
    myTowers: seq<StructureTower>,
    creeps: seq<Creep>,
    builders: seq<Creep>,
    workers: seq<Creep>,
    warriors: seq<Creep>,
    healers: seq<Creep>,
    injured: seq<Creep>,
    containers: seq<StructureContainer>,
    enemySpawn: Option<StructureSpawn>,
    enemies: seq<Creep>,
    enemyWorkers: seq<Creep>,
    injuredEnemies: seq<Creep>)

  /** `spawns.find(i => i.my == my)`: the first spawn of the given side. */
  function FirstSpawn(spawns: seq<StructureSpawn>, my: bool): (r: Option<StructureSpawn>)
    ensures r.Some? ==> r.value in spawns && r.value.my == my
    ensures r.Some? ==>
      exists k :: 0 <= k < |spawns| && spawns[k] == r.value && forall j :: 0 <= j < k ==> spawns[j].my != my
    ensures r.None? <==> forall sp :: sp in spawns ==> sp.my != my
  {
    if spawns == [] then None
    else if spawns[0].my == my then Some(spawns[0])
    else
      assert spawns == [spawns[0]] + spawns[1..];
      var r := FirstSpawn(spawns[1..], my);
      assert r.Some? ==>
        exists k :: 0 <= k < |spawns| - 1 && spawns[1..][k] == r.value && forall j :: 0 <= j < k ==> spawns[1..][j].my != my;
      if r.Some? then
        var k :| 0 <= k < |spawns| - 1 && spawns[1..][k] == r.value &&
          forall j :: 0 <= j < k ==> spawns[1..][j].my != my;
        assert spawns[k + 1] == r.value;
        assert forall j :: 0 <= j < k + 1 ==> spawns[j].my != my by {
          forall j | 0 <= j < k + 1 ensures spawns[j].my != my {
            if j > 0 { assert spawns[j] == spawns[1..][j - 1]; }
          }
        }
        r
      else r
  }

  /** The snapshot `loop` builds at the start of a tick. */
  function Classify(w: World): (s: Snapshot)
    ensures s.mySpawn == FirstSpawn(w.spawns, true) && s.enemySpawn == FirstSpawn(w.spawns, false)
    ensures forall t :: t in s.myTowers <==> t in w.towers && t.my
    ensures forall c :: c in s.creeps <==> c in w.creeps && c.my
    ensures forall c :: c in s.builders <==> c in w.creeps && c.my && HasPart(c.body, Parts.Work)
    ensures forall c :: c in s.workers <==> c in w.creeps && c.my && HasPart(c.body, Parts.Carry)
    ensures forall c :: c in s.warriors <==>
      c in w.creeps && c.my && (HasPart(c.body, Parts.Attack) || HasPart(c.body, Parts.RangedAttack))
    ensures forall c :: c in s.healers <==> c in w.creeps && c.my && HasPart(c.body, Parts.Heal)
    ensures forall c :: c in s.injured <==> c in w.creeps && c.my && c.hitsMax > 0 && 5 * c.hits < 3 * c.hitsMax
    ensures forall k :: k in s.containers <==> k in w.containers && k.usedEnergy > 0 && !k.my
    ensures forall c :: c in s.enemies <==> c in w.creeps && !c.my
    ensures forall c :: c in s.enemyWorkers <==> c in w.creeps && !c.my && HasPart(c.body, Parts.Carry)
    ensures forall c :: c in s.injuredEnemies <==> c in w.creeps && !c.my && c.hits < c.hitsMax
  {
    Snapshot(
      mySpawn := FirstSpawn(w.spawns, true),
      myTowers := Filter(w.towers, IsOwnTower),
      creeps := Filter(w.creeps, IsOwn),
      builders := Filter(w.creeps, IsBuilder),
      workers := Filter(w.creeps, IsWorker),
      warriors := Filter(w.creeps, IsWarrior),
      healers := Filter(w.creeps, IsHealer),
      injured := Filter(w.creeps, IsInjured),
      containers := Filter(w.containers, IsStocked),
      enemySpawn := FirstSpawn(w.spawns, false),
      enemies := Filter(w.creeps, IsEnemy),
      enemyWorkers := Filter(w.creeps, IsEnemyWorker),
      injuredEnemies := Filter(w.creeps, IsInjuredEnemy))
  }

  /** The integer test is the source's health ratio `hits / hitsMax < 0.6`, read exactly. */
  lemma HealthRatioExact(hits: nat, hitsMax: nat)
    requires hitsMax > 0
    ensures BelowHealthRatio(hits, hitsMax) <==> (hits as real) / (hitsMax as real) < 0.6
  {
    var h, m := hits as real, hitsMax as real;
    var q := h / m;
    var a := 5.0 * q - 3.0;
    assert q * m == h;
    assert a * m == 5.0 * h - 3.0 * m;
    NegativeTimesPositive(a, m);
    assert BelowHealthRatio(hits, hitsMax) <==> 5.0 * h - 3.0 * m < 0.0;
    assert BelowHealthRatio(hits, hitsMax) <==> a < 0.0;
  }

  lemma NegativeTimesPositive(a: real, m: real)
    requires m > 0.0
    ensures a * m < 0.0 <==> a < 0.0
  {
    if a < 0.0 {
      assert a * m < 0.0 * m;
    } else {
      assert a * m >= 0.0 * m;
    }
  }

  /** An own-side filter of the own creeps followed by the enemies is the same filter of all creeps. */
  lemma OwnFilterOfPartition(cs: seq<Creep>, p: Creep -> bool)
    requires forall c :: p(c) ==> c.my
    ensures Filter(Filter(cs, IsOwn) + Filter(cs, IsEnemy), p) == Filter(cs, p)
  {
    FilterAppend(Filter(cs, IsOwn), Filter(cs, IsEnemy), p);
    FilterFilter(cs, IsOwn, p, p);
    FilterNone(Filter(cs, IsEnemy), p);
  }

  /** An enemy-side filter of the own creeps followed by the enemies is the same filter of all creeps. */
  lemma EnemyFilterOfPartition(cs: seq<Creep>, p: Creep -> bool)
    requires forall c :: p(c) ==> !c.my
    ensures Filter(Filter(cs, IsOwn) + Filter(cs, IsEnemy), p) == Filter(cs, p)
  {
    FilterAppend(Filter(cs, IsOwn), Filter(cs, IsEnemy), p);
    FilterNone(Filter(cs, IsOwn), p);
    FilterFilter(cs, IsEnemy, p, p);
  }

  /** Classification is idempotent: classifying again the creeps it found (own
      creeps, then enemies) reproduces exactly the same snapshot. */
  lemma ClassifyIdempotent(w: World)
    ensures Classify(w.(creeps := Classify(w).creeps + Classify(w).enemies)) == Classify(w)
  {
    var cs := w.creeps;
    OwnFilterOfPartition(cs, IsOwn);
    OwnFilterOfPartition(cs, IsBuilder);
    OwnFilterOfPartition(cs, IsWorker);
    OwnFilterOfPartition(cs, IsWarrior);
    OwnFilterOfPartition(cs, IsHealer);
    OwnFilterOfPartition(cs, IsInjured);
    EnemyFilterOfPartition(cs, IsEnemy);
    EnemyFilterOfPartition(cs, IsEnemyWorker);
    EnemyFilterOfPartition(cs, IsInjuredEnemy);
  }

  /** Every role set is drawn from the own creeps, every enemy set from the
      enemies, and the own and enemy sets never share a creep. */
  lemma SnapshotPartition(w: World)
    ensures var s := Classify(w);
      (forall c :: c in s.workers || c in s.warriors || c in s.healers || c in s.injured || c in s.builders ==> c in s.creeps) &&
      (forall c :: c in s.enemyWorkers || c in s.injuredEnemies ==> c in s.enemies) &&
      (forall c :: c in s.creeps ==> c !in s.enemies)
  {
  }
}
