/**
 * The game tick (game.go) and the spawners it runs (spawner.go). Engine input is a
 * snapshot parameter, random draws are parameters constrained to their ranges, and
 * math.Hypot is the parameter `hypot`.
 */
module GameLoop {
  import opened Wrappers
  import opened Sprites
  import opened Animation
  import opened Players
  import opened Enemies
  import opened FloatingTexts
  import opened Spawning
  import opened InventoryGrid
  import opened Inventories

  /** Frames after which contact damage may hit again. */
  const DamageCooldownTicks := 30
  /** Distance below which an enemy touches the player. */
  const ContactRange := 20.0

  /** A spawner: an interval timer and a cap on how many enemies it makes. */
  class Spawner {
    var X: real
    var Y: real
    var SpawnInterval: int
    var Timer: int
    var MaxEnemies: int
    var Spawned: int

    /** The enemy record a spawn appends, for the template and offsets drawn in `roll`. */
    ghost predicate Made(e: Enemy, roll: SpawnRoll)
      reads this, e
      requires ValidRoll(roll)
    {
      var t := Template(roll.Kind);
      && e.X == X + Offset(roll.OffsetX) as real && e.Y == Y + Offset(roll.OffsetY) as real
      && e.Speed == 1.0 && e.FrameDelay == 7 && e.FrameIndex == 0 && e.FrameTimer == 0
      && e.HP == t.HP && !e.Dead
      && |e.Frames| == t.FrameCount
      && forall i :: 0 <= i < |e.Frames| ==> e.Frames[i] == FrameRect(i, t.FrameWidth, t.FrameHeight)
    }

    /** Whatever the roll, the enemy it makes is alive, animated and at frame 0. */
    lemma MadeIsNew(e: Enemy, roll: SpawnRoll)
      requires ValidRoll(roll) && Made(e, roll)
      ensures NewEnemy(e)
    {
      assert |e.Frames| == Template(roll.Kind).FrameCount > 0;
    }

    /** Update: tick the timer; when it has reached the interval and the cap allows,
        restart it and append one new enemy to the game. */
    method Update(game: Game, roll: SpawnRoll)
      requires ValidRoll(roll)
      modifies this`Timer, this`Spawned, game`Enemies
      ensures (Timer, Spawned) == Step(old(Timer), old(Spawned), SpawnInterval, MaxEnemies)
      ensures Spawns(old(Timer), old(Spawned), SpawnInterval, MaxEnemies) ==>
                |game.Enemies| == |old(game.Enemies)| + 1
                && game.Enemies[..|old(game.Enemies)|] == old(game.Enemies)
                && fresh(game.Enemies[|old(game.Enemies)|])
                && Made(game.Enemies[|old(game.Enemies)|], roll)
      ensures !Spawns(old(Timer), old(Spawned), SpawnInterval, MaxEnemies) ==> game.Enemies == old(game.Enemies)
    {
      Timer := Timer + 1;
      if Timer >= SpawnInterval && Spawned < MaxEnemies {
        Timer := 0;
        Spawned := Spawned + 1;
        var t := Template(roll.Kind);
        var frames := SliceSpriteSheet(t.FrameCount, t.FrameWidth, t.FrameHeight);
        var enemy := new Enemy(X + Offset(roll.OffsetX) as real, Y + Offset(roll.OffsetY) as real,
                               1.0, frames, 7, t.HP);
        game.Enemies := game.Enemies + [enemy];
      }
    }
  }

  /** One tick's engine input. */
  datatype Input = Input(
    Keys: Keys,         // W, S, A, D
    Tab: bool,
    MousePressed: bool,
    CursorX: int,
    CursorY: int,
    P: bool,            // add a test item
    H: bool)            // take one point of damage

  /** The enemies not marked dead, in order. */
  ghost function Alive(es: seq<Enemy>): (r: seq<Enemy>)
    reads es`Dead
    ensures forall e :: e in r ==> e in es && !e.Dead
    ensures forall i :: 0 <= i < |es| && !es[i].Dead ==> es[i] in r
    decreases |es|
  {
    if es == [] then []
    else
      var last := es[|es| - 1];
      Alive(es[..|es| - 1]) + (if last.Dead then [] else [last])
  }

  /** Enemies that are freshly spawned are among the alive ones. */
  lemma NewAreAlive(es: seq<Enemy>, n: nat)
    requires n <= |es| && forall j :: n <= j < |es| ==> NewEnemy(es[j])
    ensures forall e :: e in es[n..] ==> e in Alive(es) && !e.Dead && e.FrameTimer == 0 && e.FrameIndex == 0
  {
    forall e | e in es[n..]
      ensures e in Alive(es) && !e.Dead && e.FrameTimer == 0 && e.FrameIndex == 0
    {
      var j :| 0 <= j < |es| - n && es[n..][j] == e;
      assert es[n + j] == e && NewEnemy(e);
    }
  }

  /** Alive is the filter Kept under the "not dead" flags. */
  lemma {:induction false} AliveIsKept(es: seq<Enemy>, keep: seq<bool>)
    requires |keep| == |es| && forall k :: 0 <= k < |es| ==> keep[k] == !es[k].Dead
    ensures Alive(es) == Kept(es, keep)
    decreases |es|
  {
    if es != [] {
      var n := |es| - 1;
      AliveIsKept(es[..n], keep[..n]);
    }
  }

  /** The elements of `ts` whose flag in `keep` is set, in order. */
  function Kept<T>(ts: seq<T>, keep: seq<bool>): (r: seq<T>)
    requires |keep| == |ts|
    ensures |r| <= |ts|
    decreases |ts|
  {
    if ts == [] then []
    else Kept(ts[..|ts| - 1], keep[..|ts| - 1]) + (if keep[|ts| - 1] then [ts[|ts| - 1]] else [])
  }

  lemma KeptExtend<T>(ts: seq<T>, keep: seq<bool>, b: bool, j: nat)
    requires |keep| == j < |ts|
    ensures Kept(ts[..j + 1], keep + [b]) == Kept(ts[..j], keep) + (if b then [ts[j]] else [])
  {
    assert ts[..j + 1][..j] == ts[..j];
    assert (keep + [b])[..j] == keep;
  }

  /** Growing a prefix of the input by one element. */
  lemma KeptStep<T>(ts: seq<T>, keep: seq<bool>, j: nat)
    requires |keep| == |ts| && j < |ts|
    ensures Kept(ts[..j + 1], keep[..j + 1]) == Kept(ts[..j], keep[..j]) + (if keep[j] then [ts[j]] else [])
  {
    assert ts[..j + 1][..j] == ts[..j];
    assert keep[..j + 1][..j] == keep[..j];
  }

  /** The "not dead" flag of each enemy. */
  ghost function LiveFlags(es: seq<Enemy>): (r: seq<bool>)
    reads es`Dead
    ensures |r| == |es| && forall k :: 0 <= k < |es| ==> r[k] == !es[k].Dead
  {
    if es == [] then [] else LiveFlags(es[..|es| - 1]) + [!es[|es| - 1].Dead]
  }

  /** An element whose flag is set is kept. */
  lemma {:induction false} KeptHas<T>(ts: seq<T>, keep: seq<bool>, k: nat)
    requires |keep| == |ts| && k < |ts|
    ensures keep[k] ==> ts[k] in Kept(ts, keep)
    decreases |ts|
  {
    var n := |ts| - 1;
    if k < n {
      KeptHas(ts[..n], keep[..n], k);
    }
  }

  /** A kept last element stays last. */
  lemma KeptLast<T>(ts: seq<T>, keep: seq<bool>)
    requires |keep| == |ts| > 0 && keep[|ts| - 1]
    ensures |Kept(ts, keep)| > 0 && Kept(ts, keep)[|Kept(ts, keep)| - 1] == ts[|ts| - 1]
  {
  }

  /** Filtering only removes elements. */
  lemma {:induction false} KeptSub<T>(ts: seq<T>, keep: seq<bool>)
    requires |keep| == |ts|
    ensures forall x :: x in Kept(ts, keep) ==> x in ts
    decreases |ts|
  {
    if ts != [] {
      var n := |ts| - 1;
      KeptSub(ts[..n], keep[..n]);
      assert forall x :: x in ts[..n] ==> x in ts;
    }
  }

  /** Every element of the filtered list is an element of the input whose flag is set. */
  lemma {:induction false} KeptFrom<T>(ts: seq<T>, keep: seq<bool>, x: T)
    requires |keep| == |ts| && x in Kept(ts, keep)
    ensures exists k :: 0 <= k < |ts| && keep[k] && ts[k] == x
    decreases |ts|
  {
    var n := |ts| - 1;
    if x in Kept(ts[..n], keep[..n]) {
      KeptFrom(ts[..n], keep[..n], x);
      var k :| 0 <= k < n && keep[..n][k] && ts[..n][k] == x;
      assert keep[k] && ts[k] == x;
    } else {
      assert keep[n] && ts[n] == x;
    }
  }

  /** Filtering a list without repeats leaves a list without repeats. */
  lemma {:induction false} KeptDistinct<T>(ts: seq<T>, keep: seq<bool>)
    requires |keep| == |ts| && Distinct(ts)
    ensures Distinct(Kept(ts, keep))
    decreases |ts|
  {
    if ts != [] {
      var n := |ts| - 1;
      var init := Kept(ts[..n], keep[..n]);
      KeptDistinct(ts[..n], keep[..n]);
      if keep[n] {
        KeptSub(ts[..n], keep[..n]);
        DistinctAt(ts, n);
        assert forall k :: 0 <= k < n ==> ts[..n][k] != ts[n];
        assert ts[n] !in init;
        assert Kept(ts, keep) == init + [ts[n]];
        assert (init + [ts[n]])[..|init|] == init;
      } else {
        assert Kept(ts, keep) == init;
      }
    }
  }

  /** The spawner would spawn if updated now. */
  ghost predicate SpawnsNow(s: Spawner)
    reads s
  {
    Spawns(s.Timer, s.Spawned, s.SpawnInterval, s.MaxEnemies)
  }

  /** For each spawner of `ss`, whether it would spawn if updated now. */
  ghost function Flags(ss: seq<Spawner>): (r: seq<bool>)
    reads set s | s in ss
    ensures |r| == |ss| && forall k :: 0 <= k < |ss| ==> r[k] == SpawnsNow(ss[k])
  {
    seq(|ss|, k requires 0 <= k < |ss| reads set s | s in ss => SpawnsNow(ss[k]))
  }

  /** The positions, in increasing order, of the set flags of `bs`. */
  function Positions(bs: seq<bool>): (m: seq<nat>)
    ensures forall j :: 0 <= j < |m| ==> m[j] < |bs|
    ensures forall j, k :: 0 <= j < k < |m| ==> m[j] < m[k]
    ensures forall k :: 0 <= k < |bs| ==> (k in m <==> bs[k])
    decreases |bs|
  {
    if bs == [] then []
    else
      var n := |bs| - 1;
      assert forall k :: 0 <= k < n ==> bs[..n][k] == bs[k];
      Positions(bs[..n]) + if bs[n] then [n] else []
  }

  /** The positions, in increasing order, of the spawners of `ss` that would spawn if
      updated now: one per enemy the spawner loop adds. */
  ghost function Makers(ss: seq<Spawner>): (m: seq<nat>)
    reads set s | s in ss
    ensures forall j :: 0 <= j < |m| ==> m[j] < |ss|
    ensures forall j, k :: 0 <= j < k < |m| ==> m[j] < m[k]
    ensures forall k :: 0 <= k < |ss| ==> (k in m <==> SpawnsNow(ss[k]))
  {
    Positions(Flags(ss))
  }

  /** Enemy `j` of `es` was made by spawner `m[j]` of `ss`, from that spawner's roll. */
  ghost predicate MadeAt(ss: seq<Spawner>, m: seq<nat>, es: seq<Enemy>, rolls: seq<SpawnRoll>, j: nat)
    reads ss, es
    requires |rolls| == |ss| && ValidRolls(rolls) && j < |m| && j < |es|
  {
    m[j] < |ss| && ss[m[j]].Made(es[j], rolls[m[j]])
  }

  /** Each enemy of `es` was made by the spawner at the same place in `m`. */
  ghost predicate MadeBy(ss: seq<Spawner>, m: seq<nat>, es: seq<Enemy>, rolls: seq<SpawnRoll>)
    reads ss, es
    requires |rolls| == |ss| && ValidRolls(rolls)
  {
    |m| == |es| && forall j :: 0 <= j < |m| ==> MadeAt(ss, m, es, rolls, j)
  }

  /** Every enemy a spawner has made is alive, animated and at frame 0. */
  lemma MadeAreNew(ss: seq<Spawner>, m: seq<nat>, es: seq<Enemy>, n: nat, rolls: seq<SpawnRoll>)
    requires |rolls| == |ss| && ValidRolls(rolls) && n <= |es|
    requires MadeBy(ss, m, es[n..], rolls)
    ensures forall j :: n <= j < |es| ==> NewEnemy(es[j])
  {
    forall j | n <= j < |es|
      ensures NewEnemy(es[j])
    {
      assert MadeAt(ss, m, es[n..], rolls, j - n);
      ss[m[j - n]].MadeIsNew(es[j], rolls[m[j - n]]);
    }
  }

  /** Spawners ticked one by one have all ticked. */
  twostate lemma AllTicked(ss: seq<Spawner>)
    requires forall k {:trigger Ticked(ss[k])} :: 0 <= k < |ss| ==> Ticked(ss[k])
    ensures forall s :: s in ss ==> Ticked(s)
  {
    forall s | s in ss
      ensures Ticked(s)
    {
      var k :| 0 <= k < |ss| && ss[k] == s;
      assert Ticked(ss[k]);
    }
  }

  /** Spawner `i`'s update leaves every enemy made before it, and its maker, as they
      were, and adds its own enemy after them when it spawned: the makers of the
      enemies grow from the set flags among the first `i` to those among the first
      `i + 1`. */
  twostate lemma MadeByStep(new ss: seq<Spawner>, new i: nat, new flags: seq<bool>, before: seq<Enemy>,
                            new after: seq<Enemy>, new rolls: seq<SpawnRoll>)
    requires i < |ss| == |rolls| == |flags| && ValidRolls(rolls)
    requires forall k :: 0 <= k < |ss| ==> old(allocated(ss[k]))
    requires forall k :: 0 <= k < |ss| && k != i ==> unchanged(ss[k])
    requires forall e :: e in before ==> unchanged(e)
    requires old(MadeBy(ss, Positions(flags[..i]), before, rolls))
    requires |before| <= |after| && after[..|before|] == before
    requires flags[i] ==> |after| == |before| + 1 && ss[i].Made(after[|before|], rolls[i])
    requires !flags[i] ==> |after| == |before|
    ensures MadeBy(ss, Positions(flags[..i + 1]), after, rolls)
  {
    assert flags[..i + 1][..i] == flags[..i];
    var made := Positions(flags[..i]);
    var m := Positions(flags[..i + 1]);
    assert m == made + if flags[i] then [i] else [];
    forall j | 0 <= j < |m|
      ensures MadeAt(ss, m, after, rolls, j)
    {
      if j < |made| {
        assert after[j] == before[j] && before[j] in before;
        assert old(MadeAt(ss, made, before, rolls, j));
      }
    }
  }

  /** No element occurs twice: each one is absent from the part before it. */
  ghost predicate Distinct<T>(s: seq<T>)
    decreases |s|
  {
    s == [] || (s[|s| - 1] !in s[..|s| - 1] && Distinct(s[..|s| - 1]))
  }

  /** In a list without repeats, the element at `j` differs from every other element. */
  lemma {:induction false} DistinctAt<T>(s: seq<T>, j: int)
    requires Distinct(s) && 0 <= j < |s|
    ensures forall k :: 0 <= k < |s| && k != j ==> s[k] != s[j]
    decreases |s|
  {
    var n := |s| - 1;
    if j < n {
      DistinctAt(s[..n], j);
      assert forall k :: 0 <= k < n ==> s[..n][k] == s[k];
      assert s[n] !in s[..n];
    } else {
      forall k | 0 <= k < n
        ensures s[k] != s[j]
      {
        assert s[k] == s[..n][k];
      }
    }
  }

  /** The spawner's counters took one step. */
  twostate predicate Ticked(s: Spawner)
    reads s
  {
    (s.Timer, s.Spawned) == Step(old(s.Timer), old(s.Spawned), s.SpawnInterval, s.MaxEnemies)
  }

  /** The spawner's counters have not moved. */
  twostate predicate Untouched(s: Spawner)
    reads s
  {
    s.Timer == old(s.Timer) && s.Spawned == old(s.Spawned)
  }

  /** Every enemy whose flag in `live` is set is updated once toward (px, py) and collected,
      in order; the others are left untouched. */
  method StepEach(es: seq<Enemy>, ghost live: seq<bool>, px: real, py: real, hypot: (real, real) -> real)
    returns (alive: seq<Enemy>)
    requires Distinct(es) && |live| == |es|
    requires forall k :: 0 <= k < |es| ==> live[k] == !es[k].Dead && |es[k].Frames| > 0
    modifies es`X, es`Y, es`FrameTimer, es`FrameIndex
    ensures alive == Kept(es, live)
    ensures forall k :: 0 <= k < |es| && live[k] ==> Stepped(es[k], px, py, hypot)
    ensures forall k :: 0 <= k < |es| && !live[k] ==> unchanged(es[k])
  {
    alive := [];
    for i := 0 to |es|
      invariant alive == Kept(es[..i], live[..i])
      invariant forall k :: 0 <= k < i && live[k] ==> Stepped(es[k], px, py, hypot)
      invariant forall k :: 0 <= k < |es| && (i <= k || !live[k]) ==> unchanged(es[k])
    {
      var enemy := es[i];
      KeptStep(es, live, i);
      if !enemy.Dead {
        UpdateOne(es, i, enemy, px, py, hypot);
        alive := alive + [enemy];
      }
    }
    assert es[..|es|] == es && live[..|es|] == live;
  }

  /** `es[i].Update(px, py)` on a list without repeats: the other enemies are untouched. */
  method UpdateOne(es: seq<Enemy>, i: nat, e: Enemy, px: real, py: real, hypot: (real, real) -> real)
    requires Distinct(es) && i < |es| && es[i] == e && |e.Frames| > 0
    modifies e`X, e`Y, e`FrameTimer, e`FrameIndex
    ensures Stepped(e, px, py, hypot)
    ensures forall k :: 0 <= k < |es| && k != i ==> unchanged(es[k])
  {
    DistinctAt(es, i);
    e.Update(px, py, hypot);
  }

  /** The enemy touches the player at (px, py). */
  ghost predicate InContact(e: Enemy, px: real, py: real, hypot: (real, real) -> real)
    reads e
  {
    hypot(e.X - px, e.Y - py) < ContactRange
  }

  /** Some live enemy of `es` touches the player at (px, py). */
  ghost predicate Touching(es: seq<Enemy>, px: real, py: real, hypot: (real, real) -> real)
    reads es
  {
    exists e :: e in es && !e.Dead && InContact(e, px, py, hypot)
  }

  /** The "-1" a hit leaves above the player at (px, py). */
  ghost predicate HitText(t: FloatingText, px: real, py: real)
    reads t
  {
    t.X == px && t.Y == py - 10.0 && t.Text == "-1" && t.Lifetime == 0 && t.MaxLifetime == 60 && t.Alpha == 1.0
  }

  /** A freshly spawned enemy, whatever its template. */
  ghost predicate NewEnemy(e: Enemy)
    reads e
  {
    !e.Dead && |e.Frames| > 0 && e.FrameIndex == 0 && e.FrameTimer == 0 && e.FrameDelay == 7 && e.HP in {1, 2, 5}
  }

  /** The enemy moved one step toward (px, py) and its animation ticked once. */
  twostate predicate Stepped(e: Enemy, px: real, py: real, hypot: (real, real) -> real)
    reads e
  {
    && (e.X, e.Y) == Seek(old(e.X), old(e.Y), px, py, e.Speed, hypot)
    && |e.Frames| > 0
    && (e.FrameTimer, e.FrameIndex) == Tick(old(e.FrameTimer), old(e.FrameIndex), e.FrameDelay, |e.Frames|)
    && e.Speed == old(e.Speed) && e.FrameDelay == old(e.FrameDelay)
    && e.HP == old(e.HP) && e.Dead == old(e.Dead)
  }

  /** The text was updated once. */
  twostate predicate Aged(t: FloatingText)
    reads t
  {
    && t.Y == old(t.Y) - 0.5 && t.Lifetime == old(t.Lifetime) + 1
    && (t.MaxLifetime != 0 ==> t.Alpha == Fade(t.Lifetime, t.MaxLifetime))
    && (t.MaxLifetime == 0 ==> t.Alpha == old(t.Alpha))
    && t.X == old(t.X) && t.Text == old(t.Text) && t.MaxLifetime == old(t.MaxLifetime)
  }

  /** The text was aged once, and `live` records whether it is still within its lifetime. */
  twostate predicate Processed(t: FloatingText, live: bool)
    reads t
  {
    && t.Y == old(t.Y) - 0.5 && t.Lifetime == old(t.Lifetime) + 1
    && (t.MaxLifetime != 0 ==> t.Alpha == Fade(t.Lifetime, t.MaxLifetime))
    && (t.MaxLifetime == 0 ==> t.Alpha == old(t.Alpha))
    && (live <==> t.Lifetime < t.MaxLifetime)
  }

  /** Every text is updated once, in order; `live[k]` records whether the k-th is still
      within its lifetime afterwards, and those are collected, in order. */
  method AgeEach(texts: seq<FloatingText>) returns (kept: seq<FloatingText>, ghost live: seq<bool>)
    requires Distinct(texts)
    modifies texts`Y, texts`Lifetime, texts`Alpha
    ensures |live| == |texts| && kept == Kept(texts, live)
    ensures forall k :: 0 <= k < |texts| ==> Processed(texts[k], live[k])
  {
    live := [];
    kept := [];
    for j := 0 to |texts|
      invariant |live| == j && kept == Kept(texts[..j], live)
      invariant forall k :: j <= k < |texts| ==> unchanged(texts[k])
      invariant forall k :: 0 <= k < j ==> Processed(texts[k], live[k])
    {
      var ft := texts[j];
      var alive := AgeOne(texts, j, ft);
      KeptExtend(texts, live, alive, j);
      if alive {
        kept := kept + [ft];
      }
      live := live + [alive];
    }
    assert texts[..|texts|] == texts;
  }

  /** `ts[j].Update()` on a list without repeats: the other texts are untouched. */
  method AgeOne(ts: seq<FloatingText>, j: nat, t: FloatingText) returns (alive: bool)
    requires Distinct(ts) && j < |ts| && ts[j] == t
    modifies t`Y, t`Lifetime, t`Alpha
    ensures Processed(t, alive)
    ensures forall k :: 0 <= k < |ts| && k != j ==> unchanged(ts[k])
  {
    DistinctAt(ts, j);
    t.Update();
    alive := t.Lifetime < t.MaxLifetime;
  }

  /** The inventory's drag state after its Update and the P test key: a new press of the
      button while the inventory is open acts as `Click`, then P adds a test potion. */
  ghost function InventoryAfter(h: DragState, open: bool, wasPressed: bool, input: Input,
                                rows: nat, cols: nat, kind: int): DragState
    requires Shaped(h.Slots, rows, cols) && 0 <= kind < 3
  {
    var pressed := if open && input.MousePressed && !wasPressed
                   then Click(h, input.CursorX, input.CursorY, rows, cols) else h;
    if input.P then pressed.(Slots := Added(pressed.Slots, TestItem(kind)).1) else pressed
  }

  class Game {
    var Spawners: seq<Spawner>
    var Player: Player
    var Enemies: seq<Enemy>
    var FloatingTexts: seq<FloatingText>
    var Inventory: Inventory

    /** A composite literal `&Game{...}`; the camera is not modelled. A game built from
        distinct spawners and enemies, animated enemies, a well-formed inventory and a
        player with frames for every state and facing is ready to run. */
    constructor (spawners: seq<Spawner>, player: Player, enemies: seq<Enemy>, inventory: Inventory)
      requires Distinct(spawners) && Distinct(enemies) && inventory.Valid()
      requires forall e :: e in enemies ==> |e.Frames| > 0
      requires forall state, dir :: FrameCount(player.Animations, state, dir) > 0
      ensures Spawners == spawners && Player == player && Enemies == enemies
      ensures FloatingTexts == [] && Inventory == inventory
      ensures Valid()
    {
      Spawners, Player, Enemies := spawners, player, enemies;
      FloatingTexts, Inventory := [], inventory;
    }

    ghost predicate Valid()
      reads this, Player, Inventory
    {
      && Distinct(Spawners) && Distinct(Enemies) && Distinct(FloatingTexts)
      && Inventory.Valid()
      && (forall e :: e in Enemies ==> |e.Frames| > 0)
      && (forall state, dir :: FrameCount(Player.Animations, state, dir) > 0)
    }

    /** The spawner loop: each spawner is updated once, in order, and together they
        append one fresh enemy per spawner that spawns, after the existing ones: the
        `j`-th new enemy is made by the `j`-th spawner that spawns, from its roll. */
    method RunSpawners(rolls: seq<SpawnRoll>)
      requires Distinct(Spawners) && Distinct(Enemies)
      requires |rolls| == |Spawners| && ValidRolls(rolls)
      modifies this`Enemies, Spawners`Timer, Spawners`Spawned
      ensures Distinct(Enemies)
      ensures |Enemies| == |old(Enemies)| + |old(Makers(Spawners))|
      ensures Enemies[..|old(Enemies)|] == old(Enemies)
      ensures forall j :: |old(Enemies)| <= j < |Enemies| ==> fresh(Enemies[j]) && NewEnemy(Enemies[j])
      ensures forall e :: e in Enemies ==> e in old(Enemies) || fresh(e)
      ensures MadeBy(Spawners, old(Makers(Spawners)), Enemies[|old(Enemies)|..], rolls)
      ensures forall s :: s in Spawners ==> Ticked(s)
    {
      ghost var flags := Flags(Spawners);
      SpawnEach(rolls, flags);
      assert flags[..|Spawners|] == flags;
      MadeAreNew(Spawners, Positions(flags), Enemies, |old(Enemies)|, rolls);
      AllTicked(Spawners);
    }

    /** The loop of `RunSpawners`: spawner `i` is updated at pass `i`, and the enemies it
        adds are made by the spawners whose flag is set, in order. */
    method SpawnEach(rolls: seq<SpawnRoll>, ghost flags: seq<bool>)
      requires Distinct(Spawners) && Distinct(Enemies)
      requires |rolls| == |Spawners| == |flags| && ValidRolls(rolls)
      requires forall k :: 0 <= k < |Spawners| ==> flags[k] == SpawnsNow(Spawners[k])
      modifies this`Enemies, Spawners`Timer, Spawners`Spawned
      ensures Distinct(Enemies) && |old(Enemies)| <= |Enemies|
      ensures Enemies[..|old(Enemies)|] == old(Enemies)
      ensures forall j :: |old(Enemies)| <= j < |Enemies| ==> fresh(Enemies[j])
      ensures MadeBy(Spawners, Positions(flags[..|Spawners|]), Enemies[|old(Enemies)|..], rolls)
      ensures forall k {:trigger Ticked(Spawners[k])} :: 0 <= k < |Spawners| ==> Ticked(Spawners[k])
    {
      for i := 0 to |Spawners|
        invariant Distinct(Enemies) && |old(Enemies)| <= |Enemies|
        invariant Enemies[..|old(Enemies)|] == old(Enemies)
        invariant forall j :: |old(Enemies)| <= j < |Enemies| ==> fresh(Enemies[j])
        invariant MadeBy(Spawners, Positions(flags[..i]), Enemies[|old(Enemies)|..], rolls)
        invariant forall k {:trigger Ticked(Spawners[k])} :: 0 <= k < i ==> Ticked(Spawners[k])
        invariant forall k {:trigger Untouched(Spawners[k])} :: i <= k < |Spawners| ==> Untouched(Spawners[k])
      {
        var spawner := Spawners[i];
        assert Untouched(spawner);
        assert SpawnsNow(spawner) == flags[i];
        ghost var before := Enemies;
        SpawnOne(i, rolls, |old(Enemies)|, flags);
        forall j | |old(Enemies)| <= j < |Enemies|
          ensures fresh(Enemies[j])
        {
          if j < |before| {
            assert Enemies[..|before|][j] == before[j];
          }
        }
        assert Ticked(spawner);
      }
    }

    /** One pass of the spawner loop: spawner `i`'s Update on this game, and what it
        does to the enemy list. `flags` marks the spawners that spawn; the enemies after
        the first `n0` were made by the marked spawners before `i`, one each, in order. */
    method SpawnOne(i: nat, rolls: seq<SpawnRoll>, ghost n0: nat, ghost flags: seq<bool>)
      requires i < |Spawners| == |rolls| == |flags| && ValidRolls(rolls)
      requires Distinct(Spawners) && Distinct(Enemies) && n0 <= |Enemies|
      requires flags[i] == SpawnsNow(Spawners[i])
      requires MadeBy(Spawners, Positions(flags[..i]), Enemies[n0..], rolls)
      modifies this`Enemies, {Spawners[i]}`Timer, {Spawners[i]}`Spawned
      ensures Ticked(Spawners[i]) && Distinct(Enemies)
      ensures flags[i] ==> |Enemies| == |old(Enemies)| + 1 && Spawners[i].Made(Enemies[|old(Enemies)|], rolls[i])
      ensures !flags[i] ==> Enemies == old(Enemies)
      ensures |old(Enemies)| <= |Enemies| && Enemies[..|old(Enemies)|] == old(Enemies)
      ensures forall j :: |old(Enemies)| <= j < |Enemies| ==> fresh(Enemies[j]) && NewEnemy(Enemies[j])
      ensures MadeBy(Spawners, Positions(flags[..i + 1]), Enemies[n0..], rolls)
      ensures forall k :: 0 <= k < |Spawners| && k != i ==> unchanged(Spawners[k])
    {
      var s := Spawners[i];
      ghost var before := Enemies;
      s.Update(this, rolls[i]);
      if |Enemies| > |before| {
        var e := Enemies[|before|];
        s.MadeIsNew(e, rolls[i]);
        assert Enemies[..|before|] == before && e !in before;
      }
      DistinctAt(Spawners, i);
      forall k | 0 <= k < |Spawners| && k != i
        ensures unchanged(Spawners[k])
      {
        assert Spawners[k] != s;
      }
      assert Enemies[n0..][..|before[n0..]|] == before[n0..];
      MadeByStep(Spawners, i, flags, before[n0..], Enemies[n0..], rolls);
    }

    /** The alive filter: every enemy not marked dead is updated once toward (px, py) and
        kept, in order, in a fresh list; dead ones are dropped untouched. */
    method FilterEnemies(px: real, py: real, hypot: (real, real) -> real)
      requires Distinct(Enemies) && forall e :: e in Enemies ==> |e.Frames| > 0
      modifies this`Enemies, Enemies`X, Enemies`Y, Enemies`FrameTimer, Enemies`FrameIndex
      ensures Enemies == old(Alive(Enemies)) && Distinct(Enemies)
      ensures forall e :: e in Enemies ==> !e.Dead && Stepped(e, px, py, hypot)
      ensures forall e :: e in old(Enemies) && e !in Enemies ==> unchanged(e)
    {
      ghost var es := Enemies;
      ghost var live := LiveFlags(es);
      AliveIsKept(es, live);
      KeptDistinct(es, live);
      var alive := StepEach(Enemies, live, px, py, hypot);
      forall e | e in alive
        ensures !e.Dead && Stepped(e, px, py, hypot)
      {
        KeptFrom(es, live, e);
      }
      forall e | e in es && e !in alive
        ensures unchanged(e)
      {
        var k :| 0 <= k < |es| && es[k] == e;
        KeptHas(es, live, k);
      }
      Enemies := alive;
    }

    /** Contact damage: while the player's cooldown is 0, the first live enemy within
        range of the player hits (one call of the player's TakeDamage(1), counted in
        `hits`), restarts the cooldown at 30 and leaves a "-1" text; the cooldown then
        blocks every later enemy, so there is at most one hit per tick. */
    method ContactDamage(hypot: (real, real) -> real) returns (hits: nat)
      requires Distinct(FloatingTexts)
      modifies Player`DamageCooldown, this`FloatingTexts
      ensures hits <= 1 && Distinct(FloatingTexts)
      ensures hits == 1 <==> old(Player.DamageCooldown) == 0 && Touching(Enemies, Player.X, Player.Y, hypot)
      ensures hits == 1 ==> Player.DamageCooldown == DamageCooldownTicks
                            && |FloatingTexts| == |old(FloatingTexts)| + 1
                            && FloatingTexts[..|old(FloatingTexts)|] == old(FloatingTexts)
                            && fresh(FloatingTexts[|old(FloatingTexts)|])
                            && HitText(FloatingTexts[|old(FloatingTexts)|], Player.X, Player.Y)
      ensures hits == 0 ==> Player.DamageCooldown == old(Player.DamageCooldown) && FloatingTexts == old(FloatingTexts)
      ensures forall t :: t in FloatingTexts ==> t in old(FloatingTexts) || fresh(t)
    {
      hits := 0;
      ghost var who := 0;
      for i := 0 to |Enemies|
        invariant hits <= 1
        invariant hits == 0 ==> Player.DamageCooldown == old(Player.DamageCooldown) && FloatingTexts == old(FloatingTexts)
        invariant hits == 0 && old(Player.DamageCooldown) == 0 ==>
                    forall k :: 0 <= k < i && !Enemies[k].Dead ==> !InContact(Enemies[k], Player.X, Player.Y, hypot)
        invariant hits == 1 ==> old(Player.DamageCooldown) == 0 && HitDone()
        invariant hits == 1 ==> who < i && !Enemies[who].Dead && InContact(Enemies[who], Player.X, Player.Y, hypot)
      {
        var hit := Touch(Enemies[i], hypot);
        if hit {
          hits := hits + 1;
          who := i;
        }
      }
      if hits == 1 {
        var n := |FloatingTexts| - 1;
        assert FloatingTexts[..n] == old(FloatingTexts) && FloatingTexts[n] !in old(FloatingTexts);
      }
    }

    /** One pass of the contact loop: a live enemy within range hits while the cooldown is 0. */
    method Touch(enemy: Enemy, hypot: (real, real) -> real) returns (hit: bool)
      modifies Player`DamageCooldown, this`FloatingTexts
      ensures hit <==> old(Player.DamageCooldown) == 0 && !enemy.Dead && InContact(enemy, Player.X, Player.Y, hypot)
      ensures hit ==> HitDone()
      ensures !hit ==> Player.DamageCooldown == old(Player.DamageCooldown) && FloatingTexts == old(FloatingTexts)
    {
      hit := false;
      if enemy.Dead {
        return;
      }
      var dx := enemy.X - Player.X;
      var dy := enemy.Y - Player.Y;
      var dist := hypot(dx, dy);
      if dist < ContactRange && Player.DamageCooldown == 0 {
        hit := true;
        Hit();
      }
    }

    /** The cooldown has restarted and one "-1" text has been appended above the player. */
    twostate predicate HitDone()
      reads this, Player, FloatingTexts
    {
      && Player.DamageCooldown == DamageCooldownTicks
      && |FloatingTexts| == |old(FloatingTexts)| + 1
      && FloatingTexts[..|old(FloatingTexts)|] == old(FloatingTexts)
      && fresh(FloatingTexts[|old(FloatingTexts)|])
      && HitText(FloatingTexts[|old(FloatingTexts)|], Player.X, Player.Y)
    }

    /** A contact hit: the cooldown restarts and a "-1" text is appended above the player. */
    method Hit()
      modifies Player`DamageCooldown, this`FloatingTexts
      ensures HitDone()
    {
      Player.DamageCooldown := DamageCooldownTicks;
      var text := new FloatingText(Player.X, Player.Y - 10.0, "-1", 0, 60, 1.0);
      FloatingTexts := FloatingTexts + [text];
    }

    /** The expiry loop: each text present at the start is updated exactly once, in
        order, and the ones that reached their lifetime are dropped; the survivors keep
        their order. `live[k]` records whether the k-th text survived. */
    method ExpireFloatingTexts() returns (ghost live: seq<bool>)
      requires Distinct(FloatingTexts)
      modifies this`FloatingTexts, FloatingTexts`Y, FloatingTexts`Lifetime, FloatingTexts`Alpha
      ensures |live| == |old(FloatingTexts)| && FloatingTexts == Kept(old(FloatingTexts), live)
      ensures forall k :: 0 <= k < |live| ==>
                (live[k] <==> old(FloatingTexts)[k].Lifetime < old(FloatingTexts)[k].MaxLifetime)
      ensures forall t :: t in old(FloatingTexts) ==> Aged(t)
      ensures Distinct(FloatingTexts) && forall t :: t in FloatingTexts ==> t.Lifetime < t.MaxLifetime
      ensures var n := |old(FloatingTexts)| - 1;
              n >= 0 && old(FloatingTexts[n].Lifetime) + 1 < old(FloatingTexts[n].MaxLifetime) ==>
                |FloatingTexts| > 0 && FloatingTexts[|FloatingTexts| - 1] == old(FloatingTexts[n])
                && FloatingTexts[|FloatingTexts| - 1].Lifetime == old(FloatingTexts[n].Lifetime) + 1
                && FloatingTexts[|FloatingTexts| - 1].Text == old(FloatingTexts[n].Text)
    {
      ghost var texts := FloatingTexts;
      var kept;
      kept, live := AgeEach(FloatingTexts);
      forall k | 0 <= k < |texts|
        ensures Aged(texts[k]) && (live[k] <==> texts[k].Lifetime < texts[k].MaxLifetime)
      {
        assert Processed(texts[k], live[k]);
      }
      KeptDistinct(texts, live);
      forall t | t in Kept(texts, live)
        ensures t.Lifetime < t.MaxLifetime
      {
        KeptFrom(texts, live, t);
      }
      if |texts| > 0 && live[|texts| - 1] {
        KeptLast(texts, live);
      }
      FloatingTexts := kept;
    }

    /** The world half of a tick: the enemy phases, then the contact and text phases.
        `hits` counts the contact hits, each one call of the player's TakeDamage(1). */
    method Simulate(hypot: (real, real) -> real, rolls: seq<SpawnRoll>) returns (hits: nat)
      requires Distinct(Spawners) && Distinct(Enemies) && Distinct(FloatingTexts)
      requires forall e :: e in Enemies ==> |e.Frames| > 0
      requires |rolls| == |Spawners| && ValidRolls(rolls)
      modifies this`Enemies, this`FloatingTexts, Spawners`Timer, Spawners`Spawned
      modifies Enemies`X, Enemies`Y, Enemies`FrameTimer, Enemies`FrameIndex
      modifies FloatingTexts`Y, FloatingTexts`Lifetime, FloatingTexts`Alpha, Player`DamageCooldown
      ensures Distinct(Enemies) && Distinct(FloatingTexts)
      ensures forall e :: e in Enemies ==> !e.Dead && |e.Frames| > 0
      ensures forall t :: t in FloatingTexts ==> t.Lifetime < t.MaxLifetime
      ensures hits <= 1 && (old(Player.DamageCooldown) != 0 ==> hits == 0)
    {
      var _ := AdvanceEnemies(hypot, rolls);
      ghost var texts, live;
      hits, texts, live := ResolveContacts(hypot);
    }

    /** The spawner loop, then the alive filter with every live enemy stepping toward the
        player: afterwards no enemy is marked dead. */
    method AdvanceEnemies(hypot: (real, real) -> real, rolls: seq<SpawnRoll>) returns (ghost spawned: seq<Enemy>)
      requires Distinct(Spawners) && Distinct(Enemies)
      requires forall e :: e in Enemies ==> |e.Frames| > 0
      requires |rolls| == |Spawners| && ValidRolls(rolls)
      modifies this`Enemies, Spawners`Timer, Spawners`Spawned
      modifies Enemies`X, Enemies`Y, Enemies`FrameTimer, Enemies`FrameIndex
      ensures Distinct(Enemies)
      ensures forall e :: e in Enemies ==> !e.Dead && |e.Frames| > 0
      ensures |spawned| == |old(Makers(Spawners))|
      ensures forall e :: e in spawned ==> fresh(e) && e in Enemies && e.FrameTimer == 1 && e.FrameIndex == 0
    {
      ghost var es := Enemies;
      RunSpawners(rolls);
      spawned := Enemies[|es|..];
      NewAreAlive(Enemies, |es|);
      FilterEnemies(Player.X, Player.Y, hypot);
    }

    /** Contact damage, then the expiry of floating texts: afterwards every text is within
        its lifetime. */
    method ResolveContacts(hypot: (real, real) -> real)
      returns (hits: nat, ghost texts: seq<FloatingText>, ghost live: seq<bool>)
      requires Distinct(FloatingTexts)
      modifies this`FloatingTexts, FloatingTexts`Y, FloatingTexts`Lifetime, FloatingTexts`Alpha
      modifies Player`DamageCooldown
      ensures Distinct(FloatingTexts)
      ensures forall t :: t in FloatingTexts ==> t.Lifetime < t.MaxLifetime
      ensures hits <= 1
      ensures hits == 1 <==> old(Player.DamageCooldown) == 0 && Touching(Enemies, Player.X, Player.Y, hypot)
      ensures hits == 1 ==> |FloatingTexts| > 0 && FloatingTexts[|FloatingTexts| - 1].Text == "-1"
                            && FloatingTexts[|FloatingTexts| - 1].Lifetime == 1
      ensures hits == 1 ==> Player.DamageCooldown == DamageCooldownTicks
      ensures hits == 0 ==> Player.DamageCooldown == old(Player.DamageCooldown)
      // `texts` is the list after the contact phase: the old texts, then the hit's text if any.
      ensures |texts| == |old(FloatingTexts)| + hits && texts[..|old(FloatingTexts)|] == old(FloatingTexts)
      // The survivors, in their order, are exactly the texts still within their lifetime once aged.
      ensures |live| == |texts| && FloatingTexts == Kept(texts, live)
      ensures forall k :: 0 <= k < |texts| ==> (live[k] <==> texts[k].Lifetime < texts[k].MaxLifetime)
      ensures forall t :: t in old(FloatingTexts) ==> Aged(t)
    {
      hits := ContactDamage(hypot);
      texts := FloatingTexts;
      assert forall t :: t in old(FloatingTexts) ==> t in texts && unchanged(t);
      assert hits == 1 ==> texts[|texts| - 1].Lifetime == 0 && texts[|texts| - 1].MaxLifetime == 60
                           && texts[|texts| - 1].Text == "-1";
      live := ExpireFloatingTexts();
    }

    /** The player half of a tick: the player's movement, the inventory's own update, then
        the P test key adding the test potion of kind `kind`. */
    method Act(input: Input, kind: int)
      requires 0 <= kind < 3
      requires Inventory.Valid() && forall state, dir :: FrameCount(Player.Animations, state, dir) > 0
      modifies Player`X, Player`Y, Player`Dir, Player`State, Player`FrameTimer, Player`FrameIndex
      modifies Inventory, Inventory.Slots
      ensures Inventory.Valid()
      ensures Player.X == old(Player.X) + Shift(Player.Speed, input.Keys.D, input.Keys.A)
      ensures Player.Y == old(Player.Y) + Shift(Player.Speed, input.Keys.S, input.Keys.W)
      ensures Player.State == (if Moving(input.Keys) then Running else Idle)
      ensures Player.Dir == Facing(input.Keys, old(Player.Dir))
      ensures (Player.FrameTimer, Player.FrameIndex)
                == Tick(old(Player.FrameTimer), old(Player.FrameIndex), Player.FrameDelay, Player.CurrentFrameCount())
      ensures (Inventory.IsOpen, Inventory.ToggleCooldown)
                == Toggle(old(Inventory.IsOpen), old(Inventory.ToggleCooldown), input.Tab)
      ensures Inventory.prevMousePressed == if Inventory.IsOpen then input.MousePressed else old(Inventory.prevMousePressed)
      ensures Inventory.Hand() == InventoryAfter(old(Inventory.Hand()), Inventory.IsOpen, old(Inventory.prevMousePressed),
                                                 input, Inventory.Rows, Inventory.Cols, kind)
    {
      Player.Update(input.Keys);
      label moved:
      HandleInventory(input, kind);
      assert unchanged@moved(Player);
    }

    /** The inventory half of the player's tick: Tab and the left button go to the
        inventory's own update, then P adds a test potion of the drawn `kind`. */
    method HandleInventory(input: Input, kind: int)
      requires 0 <= kind < 3 && Inventory.Valid()
      modifies Inventory, Inventory.Slots
      ensures Inventory.Valid()
      ensures (Inventory.IsOpen, Inventory.ToggleCooldown)
                == Toggle(old(Inventory.IsOpen), old(Inventory.ToggleCooldown), input.Tab)
      ensures Inventory.prevMousePressed == if Inventory.IsOpen then input.MousePressed else old(Inventory.prevMousePressed)
      ensures Inventory.Hand() == InventoryAfter(old(Inventory.Hand()), Inventory.IsOpen, old(Inventory.prevMousePressed),
                                                 input, Inventory.Rows, Inventory.Cols, kind)
    {
      Inventory.Update(input.Tab, input.MousePressed, input.CursorX, input.CursorY);
      if input.P {
        var _ := Inventory.AddItem(TestItem(kind));
      }
    }

    /** One tick of the game: the world half, the player half, and the H test key, in
        that order.  `rolls` are the spawners' random draws
        and `kind` the draw of the potion P adds; the result is the number of calls of the player's
        TakeDamage(1): at most one contact hit, plus one for H. */
    method Update(input: Input, hypot: (real, real) -> real, rolls: seq<SpawnRoll>, kind: int)
      returns (damage: nat)
      requires Valid() && 0 <= kind < 3
      requires |rolls| == |Spawners| && ValidRolls(rolls)
      modifies this, Spawners, Enemies, FloatingTexts, Player, Inventory, Inventory.Slots
      ensures Valid()
      ensures Player == old(Player) && Inventory == old(Inventory) && Spawners == old(Spawners)
      ensures forall e :: e in Enemies ==> !e.Dead
      ensures forall t :: t in FloatingTexts ==> t.Lifetime < t.MaxLifetime
      ensures input.H ==> damage >= 1
      ensures damage <= if input.H then 2 else 1
      ensures old(Player.DamageCooldown) != 0 ==> damage == if input.H then 1 else 0
    {
      var hits := Simulate(hypot, rolls);
      Act(input, kind);
      damage := hits + if input.H then 1 else 0;
    }
  }
}
