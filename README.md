# 2d_diablo core, modelled in Dafny

A model of the per-frame logic of a small top-down action game written in Go on the
Ebiten engine, with proofs about it. One game tick (`Game.Update`):
- runs every spawner;
- keeps the enemies not marked dead, each stepping toward the player and advancing its
  animation;
- applies contact damage with a cooldown, leaving a rising "-1" text;
- ages the floating texts and drops the expired ones;
- moves and animates the player;
- updates the inventory: a Tab toggle with debounce, and click-to-pick-up, drop or swap on
  a slot grid;
- adds a test potion on P, and takes a point of damage on H.

The model also covers the spritesheet slicing used for every animation and the tooltip
word wrapper.

Layout, one module per file:

| file | module | source |
|---|---|---|
| `wrappers.dfy` | `Wrappers` | an `Option` type |
| `animation.dfy` | `Animation` | the frame timer shared by player and enemies; Go's truncating `%` |
| `sprites.dfy` | `Sprites` | `util.go`: `image.Rect` and `sliceSpriteSheet` |
| `player.dfy` | `Players` | `player.go` |
| `enemy.dfy` | `Enemies` | `enemy.go` |
| `floatingtext.dfy` | `FloatingTexts` | `floatingtext.go` |
| `spawning.dfy` | `Spawning` | `spawner.go` counters and enemy templates, as values |
| `inventory_grid.dfy` | `InventoryGrid` | `inventory.go` as pure functions on a grid value |
| `inventory.dfy` | `Inventories` | `inventory.go`: the `Inventory` object over a 2-D array |
| `textwrap.dfy` | `TextWrap` | `strings.Fields` and `wrapText` from `inventory.go` |
| `game.dfy` | `GameLoop` | `game.go` and the `Spawner` object of `spawner.go` |

Modelling conventions:
- Objects the Go code mutates through pointers are Dafny classes: `Game`, `Spawner`,
  `Player`, `Enemy`, `FloatingText` and `Inventory`.
- Slices of pointers are `seq` fields that the methods reassign.
- Inventory slots are an `array2`.
- Items are values.
- `float64` is `real`, and `math.Hypot` is a function parameter `hypot`.
- Random draws are parameters constrained to their ranges: `SpawnRoll` for `rand.Intn(3)`
  and the two `rand.Intn(40)` offsets, and `kind` for the `rand.Intn(3)` of `CreateTestItem`;
  the tick receives `kind` and builds the potion with `TestItem(kind)`.
- Engine input for a tick is an `Input` snapshot: keys, Tab, mouse button and cursor.
- Text width (`text.BoundString(...).Dx()`) is a function parameter `width`.
- Sprite frames are the rectangles cut from the sheet.

Each loop of the Go tick is a method with its own invariants, proved against a
specification function. Examples:
- the alive filter yields exactly `Alive(old(Enemies))`;
- the expiry loop yields `Kept(old(FloatingTexts), live)`, where `live[k]` is exactly "still
  within its lifetime";
- `AddItem` yields the `Added` function of the grid;
- a click yields the `Click` function of the drag state.

The properties proved about those functions include:
- the first-match search is unique;
- stacks clamp at their limit, and an empty inventory accepts exactly `Rows*Cols`
  unstackable items;
- a click conserves the multiset of items owned;
- the Tab toggle is debounced for 15 ticks;
- a spawner spawns once every interval until its cap and never exceeds the cap;
- looping animations advance one frame per delay;
- cumulative enemy damage;
- the fade of floating texts;
- `strings.Fields` loses only the spaces, and splits a joined line back into its words;
- the greedy line layout is unique, and `wrapText` produces exactly it.

Two behaviours of the source are kept as written:
- When the first word alone is wider than the limit, `wrapText` (inventory.go:278-280) emits
  an empty first line. `Layout` allows exactly that: only line 0 may be empty.
- `Player.Update` (player.go:74-80) does not reset `FrameIndex` when the state or facing
  changes. The index stays in range only because every loaded animation has 8 frames
  (`LoadedAnimationsAreUniform`).

## Model

| member | source | states |
|---|---|---|
| Animation.GoRem | enemy.go:45 | Go's `%`: for a non-negative dividend the result lies between 0 and the divisor's magnitude and agrees with the Euclidean remainder; for a negative one it lies between minus that magnitude and 0 |
| Animation.GoRemOdd | player.go:45 | Truncated remainder is odd in the dividend: `GoRem(-a, b) == -GoRem(a, b)` |
| Animation.Tick | player.go:41-47 | One tick of `AdvanceFrame`: the timer either restarts at 0 or grows by one, and the index moves only on a restart |
| Animation.TickEffect | player.go:41-47 | One frame tick: the timer either restarts at 0 (exactly when it reaches the delay) or grows by one; the index only moves on a restart, to the next frame modulo the count |
| Animation.TickKeepsIndexInRange | enemy.go:42-46 | A frame index inside the animation stays inside it after a tick |
| Animation.OneFramePerDelay | enemy.go:42-46 | From timer t, the index stays put until the delay is reached, then moves on one frame |
| Animation.TicksAdd | enemy.go:42-46 | Ticks compose: `m + n` ticks equal `m` ticks followed by `n` |
| Animation.NextLoop | enemy.go:42-46 | From a restarted timer, one more full delay moves the index on exactly one frame |
| Animation.LoopingAnimation | enemy.go:42-46 | After `k` full delays from timer 0 the index has advanced `k` frames modulo the frame count |
| Sprites.Rect | util.go:13 | `image.Rect` canonicalises the corners: min <= max on each axis, built from the given coordinates |
| Sprites.SliceSpriteSheet | util.go:10-18 | One rectangle per frame (none for a non-positive count), frame `i` being the `i`-th requested rectangle |
| Sprites.FrameRectOnTopRow | util.go:13 | For non-negative sizes frame `i` is exactly `[i*w, (i+1)*w) x [0, h)` and is `w` wide |
| Sprites.FramesTile | util.go:12-16 | Frames lie left to right without overlap; consecutive frames touch |
| Players.LoadPlayerAnimations | player.go:94-129 | Every (state, facing) entry exists and holds the 8 frames sliced from its sheet |
| Players.LoadedAnimationsAreUniform | player.go:110-113 | All loaded animations have the same frame count, 8 |
| Players.Facing | player.go:53-72 | With a movement key held, the facing is a held key's and no key tested later is held; with none held, the facing is unchanged |
| Players.Shift | player.go:53-72 | The move along one axis: none when both or neither key of the pair is held, +Speed for the plus key alone, -Speed for the minus key alone |
| Players.Player.AdvanceFrame | player.go:41-47 | The timer and index take one tick of the current animation |
| Players.Player.Update | player.go:50-81 | The state is Running exactly when a key is held; the facing is `Facing`; X gains Speed with right held and loses it with left held, Y likewise with down and up (`Shift`); one animation tick; an index in range stays in range when the frame count is unchanged |
| Enemies.Enemy.constructor | spawner.go:38-47 | The fields the composite literal names; Dead is false |
| Enemies.Seek | enemy.go:33-39 | Within distance 1 of the target the position is kept; farther away each coordinate moves by Speed times its share of the distance |
| Enemies.Toward | enemy.go:37-38 | One coordinate's step: its change times the distance equals the difference times the speed |
| Enemies.Enemy.Update | enemy.go:31-47 | The position is `Seek` (one step of Speed toward the target unless within 1); one animation tick; an index in range stays in range; HP and Dead are unchanged |
| Enemies.Enemy.TakeDamage | enemy.go:68-73 | HP drops by the amount and Dead is set when HP reaches 0 or below (`Damage`) |
| Enemies.Damage | enemy.go:68-73 | HP decreases by exactly the amount; dead stays dead; dead afterwards exactly when already dead or HP <= 0 |
| Enemies.CumulativeDamage | enemy.go:68-73 | Non-negative hits remove their sum; the enemy is dead exactly when it was already dead, or at least one hit was taken and the HP left is 0 or below |
| FloatingTexts.FloatingText.constructor | game.go:50-58 | The fields the composite literal names |
| FloatingTexts.FloatingText.Update | floatingtext.go:16-21 | The text rises 0.5, ages one tick and its alpha is `1 - Lifetime/MaxLifetime`; position X, text and maximum are unchanged |
| FloatingTexts.FadeShape | floatingtext.go:20 | Opacity is 1 when new and 0 at the maximum lifetime, strictly decreases with age, and is positive exactly before the maximum |
| FloatingTexts.Fade | floatingtext.go:20 | The alpha `1 - Lifetime/MaxLifetime`: 1 at lifetime 0, 0 at the maximum, positive exactly before the maximum |
| FloatingTexts.Survives | game.go:72-79 | Whether a text is still in the list after `n` more ticks: each tick adds one to its lifetime and drops it once the lifetime reaches the maximum |
| FloatingTexts.Lifespan | floatingtext.go:19 | A text survives `n` ticks exactly when `n` is 0 or its lifetime plus `n` stays below the maximum |
| FloatingTexts.NewTextLifespan | game.go:55-56 | A new text (lifetime 0) survives `MaxLifetime - 1` ticks and is removed on tick `MaxLifetime` |
| Spawning.Spawns | spawner.go:19 | The spawn test on the incremented timer: it has reached the interval and the cap is not reached |
| Spawning.Step | spawner.go:18-21 | (Timer, Spawned) after one call: Spawned grows by one exactly when `Spawns`, and by at most one; below the cap it stays within it; the timer restarts at 0 or grows by one |
| Spawning.RunRespectsCap | spawner.go:17-21 | Over any number of updates the spawn count never passes the cap and grows by at most one per update |
| Spawning.AtCapInert | spawner.go:19 | At the cap nothing more spawns and the timer just keeps counting |
| Spawning.NextSpawn | spawner.go:18-21 | Below the cap nothing spawns until the update that brings the timer to the interval, which spawns and restarts the timer |
| Spawning.RunAdd | spawner.go:17-21 | Update sequences compose |
| Spawning.PeriodicSpawns | spawner.go:17-21 | From a restarted timer, exactly one enemy per interval until the cap |
| Spawning.FirstSpawnAt180 | spawner.go:18-21 | With interval 180 and cap 10, nothing after 179 updates and one enemy after 180 |
| Spawning.Offset | spawner.go:39-40 | A spawn offset `rand.Intn(40) - 20` lies in [-20, 19] |
| Spawning.Template | spawner.go:26-36 | The three enemy kinds have HP 1, 2 or 5 and a positive frame count |
| GameLoop.Spawner.Update | spawner.go:17-51 | The counters take one `Step`; when the spawner spawns, exactly one fresh enemy made from the drawn template and offsets is appended, otherwise the enemy list is unchanged |
| GameLoop.Spawner.Made | spawner.go:26-47 | An enemy built by the composite literal from a roll: the spawner position plus the two offsets, speed 1, delay 7, frame 0, the template's HP and frame count, alive |
| GameLoop.Spawner.MadeIsNew | spawner.go:38-47 | Whatever the roll, a spawned enemy is alive, animated, at frame 0 with delay 7 and HP 1, 2 or 5 |
| GameLoop.Alive | game.go:26-33 | The alive list holds only enemies of the input that are not dead, and every such enemy |
| GameLoop.AliveIsKept | game.go:26-33 | `Alive` is the order-preserving filter `Kept` under the not-dead flags |
| GameLoop.NewAreAlive | game.go:22-33 | Freshly spawned enemies survive the alive filter of the same tick |
| GameLoop.Kept | game.go:72-80 | A filter never lengthens its input |
| GameLoop.KeptExtend | game.go:27-31 | Extending the examined prefix by one element extends the filtered list by that element exactly when it is kept |
| GameLoop.KeptStep | game.go:27-31 | The same, for a prefix of a full flag list |
| GameLoop.KeptHas | game.go:28-30 | An element whose flag is set is in the filtered list |
| GameLoop.KeptFrom | game.go:28-30 | Every element of the filtered list is an input element whose flag is set |
| GameLoop.KeptSub | game.go:28-30 | The filtered list holds only input elements |
| GameLoop.KeptLast | game.go:72-80 | A kept last element is still last after filtering |
| GameLoop.KeptDistinct | game.go:26-33 | Filtering a list without repeats leaves none |
| GameLoop.LiveFlags | game.go:28 | One flag per enemy, set exactly when it is not dead |
| GameLoop.StepEach | game.go:27-31 | Each live enemy is updated once toward the player and collected in order; the result is `Kept(es, live)`; the dead ones are untouched |
| GameLoop.UpdateOne | game.go:29 | One enemy's update leaves every other enemy of the list untouched |
| GameLoop.AgeEach | game.go:72-79 | Each text is updated once, in order; the survivors are collected in order, and `live` records which stay within their lifetime |
| GameLoop.AgeOne | game.go:73-74 | One text's update, and whether it is still within its lifetime, leaving the other texts untouched |
| GameLoop.Game.constructor | game.go:10-19 | The fields given and no floating texts; from spawners and enemies without repeats, a well-formed inventory, animated enemies and a player with frames for every state and facing, the game is well formed (`Valid`) |
| GameLoop.Game.RunSpawners | game.go:22-24 | Every spawner takes one counter step, in order; the enemies present are kept as a prefix; one fresh, new enemy is appended per spawner that spawns, and the `j`-th of them is made, from its own roll, by the `j`-th spawner that spawns (`Makers`); no enemy appears twice |
| GameLoop.Game.SpawnEach | game.go:22-24 | The loop of `RunSpawners`: every spawner has ticked, the old enemies are a prefix, the added ones are fresh and made, in order, by the spawners whose flag is set |
| GameLoop.Game.SpawnOne | game.go:23 | One spawner's update on the game: its counters step and no other spawner changes; when it spawns, exactly one fresh enemy made from its roll is appended, otherwise the list is unchanged; the record of which spawner made each added enemy grows by this spawner exactly when it spawns |
| GameLoop.Positions | game.go:22-24 | The positions of the set flags: in range, strictly increasing, and containing `k` exactly when flag `k` is set |
| GameLoop.Makers | game.go:22-24 | The spawners that spawn on this tick, in loop order: increasing positions, and `k` is among them exactly when spawner `k` would spawn |
| GameLoop.MadeAreNew | spawner.go:38-47 | Every enemy a spawner made is alive, animated and at frame 0 |
| GameLoop.MadeByStep | game.go:22-24 | One more pass of the loop keeps every earlier enemy's maker and adds this spawner's enemy after them exactly when its flag is set |
| GameLoop.Game.FilterEnemies | game.go:26-33 | The enemy list becomes exactly the old alive list; each survivor stepped once toward the player; dropped enemies are untouched |
| GameLoop.InContact | game.go:41-45 | An enemy touches the player when the hypotenuse of their offsets is below 20 |
| GameLoop.Game.ContactDamage | game.go:35-60 | At most one hit per tick; a hit happens exactly when the cooldown was 0 and some live enemy is within 20 of the player; a hit sets the cooldown to 30 and appends exactly one fresh "-1" text 10 above the player, with lifetime 0 of 60 and alpha 1; no hit changes nothing |
| GameLoop.Game.Touch | game.go:36-59 | One pass of the contact loop: it hits exactly when the cooldown is 0, the enemy is live and within range |
| GameLoop.Game.Hit | game.go:45-58 | The cooldown restarts at 30 and one "-1" text is appended above the player |
| GameLoop.Game.ExpireFloatingTexts | game.go:72-80 | Every text present is updated exactly once; the list becomes the survivors in their old order, exactly those still within their lifetime; every remaining text is within its lifetime; a surviving last text stays last |
| GameLoop.Game.AdvanceEnemies | game.go:22-33 | After spawning and filtering, every enemy is live and animated, with no repeats; every enemy spawned this tick is still there, with one animation tick done |
| GameLoop.Game.ResolveContacts | game.go:35-80 | At most one hit, exactly when the cooldown was 0 and a live enemy touched the player; a hit restarts the cooldown at 30, no hit leaves it; the texts before expiry are the old ones plus the hit's "-1"; the list becomes exactly those of them still within their lifetime, in order; each old text is aged once, and a hit's "-1" is the last text, aged once |
| GameLoop.Game.Simulate | game.go:22-80 | After the world half of a tick no enemy is dead, every text is within its lifetime, and contact hits at most once and never while the cooldown runs |
| GameLoop.Game.Act | game.go:82-95 | The player moves by the held keys, runs exactly when a key is held, faces per `Facing` and takes one animation tick; the inventory toggles per `Toggle`, remembers the button while open, and its drag state becomes `InventoryAfter`: `Click` on a new press while open, then `Added` of the test potion on P; the inventory stays well formed |
| GameLoop.Game.HandleInventory | game.go:90-95 | The inventory half of the tick: `Toggle`, the remembered button, and the drag state `InventoryAfter` of the old one |
| GameLoop.Game.Update | game.go:21-102 | One tick keeps the game well formed and the same player, inventory and spawner objects; no dead enemy remains (without the attack, see below); every text is within its lifetime; damage taken is the contact hit (at most one) plus one for H |
| InventoryGrid.Put | inventory.go:143 | Replacing one slot changes that slot only and keeps the shape |
| InventoryGrid.EmptyGrid | inventory.go:41-62 | A `rows x cols` grid with every slot empty |
| InventoryGrid.Accepts | inventory.go:162-164 | The two slot tests of `AddItem`: a slot holding the same id below its stack limit takes a stack; an empty slot takes a new item |
| InventoryGrid.FirstFrom | inventory.go:159-172 | The first accepted slot at or after a position in row-major order, or none |
| InventoryGrid.First | inventory.go:159-183 | The first accepted slot of the grid, or none when no slot is accepted |
| InventoryGrid.FirstIs | inventory.go:159-183 | The first accepted slot is unique |
| InventoryGrid.Merge | inventory.go:165-168 | Stacking adds the quantity, clamped to the stack limit; nothing else changes |
| InventoryGrid.Added | inventory.go:157-185 | Success exactly when some slot can be stacked onto or is empty; failure leaves the grid unchanged; the shape is kept |
| InventoryGrid.AddStacksOntoFirstMatch | inventory.go:159-172 | A stackable slot wins over every empty slot: the first one is merged into |
| InventoryGrid.AddFillsFirstEmpty | inventory.go:175-183 | With nothing to stack onto, the first empty slot receives the item |
| InventoryGrid.StackClampsAtMax | inventory.go:164-168 | A stack one short of its limit is filled to the limit and then accepts no more |
| InventoryGrid.AddAll | inventory.go:157-185 | One result per item added in sequence |
| InventoryGrid.CountEmptyPut | inventory.go:179 | Filling one empty slot lowers the empty count by one |
| InventoryGrid.CountEmptyPositive | inventory.go:175-183 | There is an empty slot exactly when the empty count is positive |
| InventoryGrid.CountEmptyGrid | inventory.go:41-62 | A new inventory has `rows * cols` empty slots |
| InventoryGrid.AddFullStacks | inventory.go:157-185 | Adding unstackable items to a grid of full stacks succeeds exactly while empty slots remain |
| InventoryGrid.Capacity | inventory.go:157-185 | An empty inventory accepts exactly its first `rows * cols` unstackable items |
| InventoryGrid.TestItem | inventory.go:237-259 | A test potion is one of three ids, quantity 1 of a stack of 5, and stackable |
| InventoryGrid.GridItemsPut | inventory.go:140-146 | Replacing a slot trades its item for the new one in the multiset of held items |
| InventoryGrid.SlotX | inventory.go:132 | The left edge of column `col`: 50 plus 36 per column |
| InventoryGrid.SlotY | inventory.go:133 | The top edge of row `row`: 50 plus 36 per row |
| InventoryGrid.Covers | inventory.go:135 | The cursor lies on the slot's 32x32 square |
| InventoryGrid.CellAt | inventory.go:130-135 | The slot whose 32x32 square holds the cursor, and it is the only one |
| InventoryGrid.BandIndex | inventory.go:132-135 | Along an axis, the square of index `k` holds an offset exactly when `k` is its quotient by 36 and the remainder is below 32 |
| InventoryGrid.Click | inventory.go:124-152 | A press conserves every item owned (slots plus carried); outside every slot it changes nothing; only the slot under the cursor changes; with nothing carried the slot's item goes to the hand and the slot empties, with an item carried the hand and the slot exchange items; a pick-up records an offset inside the square |
| InventoryGrid.ClickAt | inventory.go:136-148 | On the slot under the cursor: the hand takes the slot's item, the slot receives the carried item (none on a pick-up); shape and items owned are kept, no other slot changes |
| InventoryGrid.Toggle | inventory.go:109-116 | The open flag flips exactly when Tab is held and the decremented cooldown is 0, which restarts it at 15; otherwise it counts down; it stays within [0, 15] |
| InventoryGrid.Debounce | inventory.go:109-116 | While the cooldown runs, no Tab state toggles the inventory |
| InventoryGrid.HeldTabTogglesEvery15 | inventory.go:109-116 | Holding Tab after a toggle leaves it alone for 14 updates and toggles again on the 15th |
| InventoryGrid.RunSplit | inventory.go:109-116 | Update sequences compose |
| Inventories.Inventory.SlotGrid | inventory.go:30 | The array as a grid value of the inventory's shape, slot by slot |
| Inventories.Inventory.constructor | inventory.go:41-62 | Every slot empty, closed, nothing carried |
| Inventories.Inventory.SetSlot | inventory.go:143 | The grid becomes `Put` of the old grid at that slot |
| Inventories.Inventory.Update | inventory.go:108-155 | Open flag and cooldown follow `Toggle`; while closed nothing else changes; while open a new press applies `Click` and the button state is remembered |
| Inventories.Inventory.Press | inventory.go:124-152 | The slot scan on a new press produces exactly `Click` of the old drag state |
| Inventories.Inventory.PressSlot | inventory.go:136-148 | Acting on the slot under the cursor produces exactly `Click` |
| Inventories.Inventory.AddItem | inventory.go:157-185 | The result and the new grid are exactly `Added` of the old grid |
| Inventories.Inventory.Scan | inventory.go:159-183 | The scan finds the first accepted slot in row-major order, or reports that none is accepted |
| TextWrap.IsSpace | inventory.go:262 | The white space `strings.Fields` splits on: the ASCII spaces and the Unicode White_Space characters |
| TextWrap.WordLen | inventory.go:262 | The leading run of non-space characters ends at a space or at the end |
| TextWrap.Fields | inventory.go:262 | `strings.Fields` gives non-empty space-free words, none exactly when the text is all spaces |
| TextWrap.FieldsKeepText | inventory.go:262 | The words glued together are the text without its spaces |
| TextWrap.FieldsSplit | inventory.go:262 | A space splits the text into two independently split parts |
| TextWrap.FieldsOfWord | inventory.go:262 | A single word splits into itself |
| TextWrap.FieldsAfterSpace | inventory.go:262 | A word after a space becomes one more field |
| TextWrap.FieldsOfJoin | inventory.go:271-275 | Splitting a line joined with single spaces gives back its words |
| TextWrap.Append | inventory.go:271-275 | Adding a word gives a non-empty line that splits into the old line's words followed by the new word |
| TextWrap.JoinWordsNonEmpty | inventory.go:285-287 | A line holding a word is non-empty |
| TextWrap.LayoutExtend | inventory.go:281-283 | A word that fits extends the greedy layout |
| TextWrap.LayoutBreak | inventory.go:278-280 | A word that does not fit starts a new line of the greedy layout |
| TextWrap.LayoutUnique | inventory.go:270-284 | There is only one greedy layout of a word list |
| TextWrap.WrapText | inventory.go:261-290 | No lines exactly when the text is all spaces; otherwise the lines are those of the unique greedy layout of its words within the width limit |
| TextWrap.LayOut | inventory.go:267-287 | On the words of a text that is not all spaces, the loop closes each line exactly when the next word would exceed the limit and emits the greedy layout's lines; the final `line != ""` guard always holds |
| TextWrap.WrapBreak | inventory.go:278-280 | A break keeps the loop invariant |
| TextWrap.WrapExtend | inventory.go:281-283 | An extension keeps the loop invariant |
| TextWrap.LinesAtEnd | inventory.go:285-287 | The final line runs to the last word and holds it, so it is never empty and Go's `if line != ""` guard always holds |
| TextWrap.JoinStep | inventory.go:271-275 | Adding the next word to a line of consecutive words |

## Left out

- Drawing: every `Draw` and `DrawTooltip`, image loading (`NewImageFromFile`, `log.Fatalf`),
  `SubImage`, colors, icons, and `main.go` with the engine's run loop.
- The camera: zoom keys (game.go:62-70) and `CenterOn` (game.go:88).
- `Player.Attack` (game.go:84-86) and `Player.TakeDamage` are not part of this model. They
  are called but no shown file defines them. `Game.Update` returns the number of
  `TakeDamage(1)` calls as `damage` instead.
- `Player.DamageCooldown` is used but declared nowhere shown. It is a field here, and like the
  source nothing decrements it, so after the first contact hit contact damage never repeats.
- The `Color` field of the hit text (game.go:54) is absent from the `FloatingText` struct and is omitted.
- Items are values: the aliasing of `*Item` pointers shared between slots and the carried item is not modelled.
- Floating point is `real`: no rounding, infinities or NaN. `FloatingText.Update` with
  `MaxLifetime == 0` would give Inf or NaN in Go; here it leaves `Alpha` as it was.
- `math.Hypot` is abstract (`hypot`), so distance properties hold for any length function.
- `int` is unbounded: 64-bit overflow of counters, quantities and coordinates is not modelled.
- `unicode.IsSpace` is modelled on code points. Invalid UTF-8 is not modelled.
- Text measurement is the abstract `width`.
- The expiry loop (game.go:72-80) splices the slice in place. It is modelled as building the
  list of survivors in their old order, so the backing-array sharing of `append(s[:i], s[i+1:]...)`
  is not captured.
- `rand.Seed` and the clock in `CreateTestItem` are left out. Random draws are parameters.
- GameLoop.Game.Update: "no dead enemy remains" holds only for this model, which leaves out
  `Player.Attack` (game.go:84-86); in the source a tick with Space held may kill enemies after
  the alive filter, and they stay in the list until the next tick. It also states the
  invariants and the damage count, not every field: positions and the inventory are stated by
  `GameLoop.Game.Act`, and the enemy and text phases by `GameLoop.Game.AdvanceEnemies` and
  `GameLoop.Game.ResolveContacts`.
- GameLoop.Game.Simulate: states the invariants and the hit bound only; the exact effects are
  stated by the phases it calls.
- GameLoop.Game.AdvanceEnemies: does not state the new enemies' positions or templates.
  `RunSpawners` states which spawner made each new enemy, from which roll, and
  `FilterEnemies` then steps every survivor once; `AdvanceEnemies` does not compose the two.
- Go's run-time panics are not modelled as outcomes. `(FrameIndex + 1) % len(frames)`
  (player.go:45, enemy.go:45) panics on an empty animation; `Animation.Tick`,
  `Players.Player.AdvanceFrame`, `Players.Player.Update` and `Enemies.Enemy.Update` instead
  require a non-zero frame count whenever the timer reaches the delay.
- `NewInventory(rows, cols)` (inventory.go:41-62) panics in `make` for a negative size;
  `Inventories.Inventory.constructor` takes `nat` sizes, so that case cannot be expressed.
