/**
 * The spawner's counters and enemy templates (spawner.go), as values.
 * Every call ticks the timer; a call spawns when the ticked timer has reached
 * the interval and the cap has not been reached, and a spawn restarts the timer.
 */
module Spawning {
  import opened Animation

  /** Whether a call with these counters spawns. */
  predicate Spawns(timer: int, spawned: int, interval: int, maxEnemies: int)
  {
    timer + 1 >= interval && spawned < maxEnemies
  }

  /** (Timer, Spawned) after one call. */
  function Step(timer: int, spawned: int, interval: int, maxEnemies: int): (r: (int, int))
    ensures r.1 == spawned + 1 <==> Spawns(timer, spawned, interval, maxEnemies)
    ensures spawned <= r.1 <= spawned + 1
    ensures spawned <= maxEnemies ==> r.1 <= maxEnemies
    ensures r.0 == 0 || r.0 == timer + 1
  {
    if Spawns(timer, spawned, interval, maxEnemies) then (0, spawned + 1) else (timer + 1, spawned)
  }

  /** (Timer, Spawned) after `n` calls. */
  function Run(n: nat, timer: int, spawned: int, interval: int, maxEnemies: int): (int, int)
    decreases n
  {
    if n == 0 then (timer, spawned)
    else
      var (t, s) := Step(timer, spawned, interval, maxEnemies);
      Run(n - 1, t, s, interval, maxEnemies)
  }

  /** Spawned never passes the cap, and grows by at most one per call. */
  lemma {:induction false} RunRespectsCap(n: nat, timer: int, spawned: int, interval: int, maxEnemies: int)
    requires spawned <= maxEnemies
    ensures spawned <= Run(n, timer, spawned, interval, maxEnemies).1 <= maxEnemies
    ensures Run(n, timer, spawned, interval, maxEnemies).1 <= spawned + n
    decreases n
  {
    if n > 0 {
      var (t, s) := Step(timer, spawned, interval, maxEnemies);
      RunRespectsCap(n - 1, t, s, interval, maxEnemies);
    }
  }

  /** At the cap the spawner is inert for good: nothing spawns and the timer keeps growing. */
  lemma {:induction false} AtCapInert(n: nat, timer: int, spawned: int, interval: int, maxEnemies: int)
    requires spawned >= maxEnemies
    ensures Run(n, timer, spawned, interval, maxEnemies) == (timer + n, spawned)
    decreases n
  {
    if n > 0 {
      AtCapInert(n - 1, timer + 1, spawned, interval, maxEnemies);
    }
  }

  /** Below the cap, with the timer at `timer`, nothing spawns until the call that
      brings the timer to the interval, and that call spawns. */
  lemma {:induction false} NextSpawn(k: nat, timer: int, spawned: int, interval: int, maxEnemies: int)
    requires spawned < maxEnemies && timer + k < interval
    ensures Run(k, timer, spawned, interval, maxEnemies) == (timer + k, spawned)
    ensures timer + k + 1 == interval ==> Run(k + 1, timer, spawned, interval, maxEnemies) == (0, spawned + 1)
    decreases k
  {
    if k > 0 {
      NextSpawn(k - 1, timer + 1, spawned, interval, maxEnemies);
    }
  }

  /** Calls compose. */
  lemma {:induction false} RunAdd(m: nat, n: nat, timer: int, spawned: int, interval: int, maxEnemies: int)
    ensures var (t, s) := Run(m, timer, spawned, interval, maxEnemies);
            Run(m + n, timer, spawned, interval, maxEnemies) == Run(n, t, s, interval, maxEnemies)
    decreases m
  {
    if m > 0 {
      var (t, s) := Step(timer, spawned, interval, maxEnemies);
      RunAdd(m - 1, n, t, s, interval, maxEnemies);
    }
  }

  /** From a fresh timer, one enemy every `interval` calls until the cap. */
  lemma {:induction false} PeriodicSpawns(k: nat, spawned: int, interval: int, maxEnemies: int)
    requires interval >= 1 && spawned + k <= maxEnemies
    ensures Run(k * interval, 0, spawned, interval, maxEnemies) == (0, spawned + k)
    decreases k
  {
    if k > 0 {
      PeriodicSpawns(k - 1, spawned, interval, maxEnemies);
      var before := PrevMultiple(k, interval);
      RunAdd(before, interval, 0, spawned, interval, maxEnemies);
      NextSpawn(interval - 1, 0, spawned + k - 1, interval, maxEnemies);
    }
  }

  /** A spawner with interval 180 and cap 10: nothing after 179 calls, one enemy after 180. */
  lemma FirstSpawnAt180()
    ensures Run(179, 0, 0, 180, 10) == (179, 0)
    ensures Run(180, 0, 0, 180, 10) == (0, 1)
  {
    NextSpawn(179, 0, 0, 180, 10);
  }

  /** The random draws of one spawn: rand.Intn(3) for the kind and rand.Intn(40) per axis. */
  datatype SpawnRoll = SpawnRoll(Kind: int, OffsetX: int, OffsetY: int)

  predicate ValidRoll(roll: SpawnRoll)
  {
    0 <= roll.Kind < 3 && 0 <= roll.OffsetX < 40 && 0 <= roll.OffsetY < 40
  }

  /** Every roll of a tick, one per spawner, is a possible draw. */
  predicate ValidRolls(rolls: seq<SpawnRoll>)
  {
    forall i :: 0 <= i < |rolls| ==> ValidRoll(rolls[i])
  }

  /** The offset from the spawner's position: rand.Intn(40) - 20. */
  function Offset(draw: int): (r: int)
    requires 0 <= draw < 40
    ensures -20 <= r <= 19
  {
    draw - 20
  }

  /** What one kind of enemy is made from: its sheet, how it is sliced, and its hit points. */
  datatype EnemyTemplate = EnemyTemplate(Sheet: string, FrameCount: int, FrameWidth: int, FrameHeight: int, HP: int)

  function Template(kind: int): (t: EnemyTemplate)
    requires 0 <= kind < 3
    ensures t.HP in {1, 2, 5} && t.FrameCount > 0
  {
    match kind
    case 0 => EnemyTemplate("assets/slime/green.png", 11, 16, 32, 1)
    case 1 => EnemyTemplate("assets/slime/red.png", 11, 16, 32, 2)
    case _ => EnemyTemplate("assets/bat/default.png", 4, 32, 32, 5)
  }
}
