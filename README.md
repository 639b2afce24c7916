# hardcore: sector graph generator and small integer rules, in Dafny

This project models the computational core of the `hardcore` 2D platformer:

- **Sector graph generator** (`generate_level_layout`, src/level.rs). It builds a grid of sector flag sets. The top row gets one entrance and the bottom row one exit. Each pair of adjacent rows is joined by one vertical link. Each row gets one horizontal run joining its two connector columns. The model is proved to produce exactly `Layout(p)`, a declarative description of every sector's flags. On top of that it proves:
  - exactly one entrance and one exit;
  - vertical and horizontal openings come in matching pairs;
  - each row's run covers exactly the span between its connector columns;
  - flags are never cleared;
  - the `u8` encoding uses only the six flag bits;
  - the exit is reachable from the entrance, and from every sector reachable from the entrance.
- **Sprite-frame cycling** (src/animation.rs). This covers `adjust_sprite_indices` and the wrap-around formula of `animate_sprites`, with `usize` overflow, underflow and modulo by zero made explicit. An animation of `n` frames returns to its start after `n` timer expiries.
- **Heart bar** (src/ui.rs). This covers the number of hearts `spawn_hud` creates and `update_hud`'s running `i8` hit-point counter. The counter is spent two points per heart and mapped to the empty (39), half (53) or full (67) sprite.
- **Damage rule** (`deal_damage`, src/combat.rs). It covers the hit condition, immunity while invincibility frames are active, `Kill` versus `Fixed` damage, the iframe grants and the despawn rule. The physics intersection test is a function parameter, and queued commands are an output list.

Files:
- `wrappers.dfy`: `Option`.
- `rust_ints.dfy`: `i8` and `usize`, with checked subtraction.
- `level.dfy`: module `Level`.
- `animation.dfy`: module `Animation`.
- `ui.dfy`: module `Ui`.
- `combat.dfy`: module `Combat`.

Rust's debug-build integer semantics are modelled: an arithmetic result outside its type panics. In the model a panic is `None` from a function, or `ok == false` from a method.

A flag set is a record of six booleans, one per `SectorType` flag. `Bits()` gives the `u8` the source stores. `FlagBits`, `BitsOr`, `BitsContains` and `BitsInjective` show that the record and the source's `u8` bit set are interchangeable. This keeps bit-vector reasoning out of the grid proofs.

Two points about the extent of the model:
- `convert_sectors_to_level` (src/level.rs:101-112) has an empty loop body and `spawn_entities` (src/level.rs:114-116) is empty. No rasterizer or spawn stage exists in the code to model.
- The source hard-codes a 4×4 grid (src/level.rs:48-49). The model generalises this to `rows ≥ 2` and `cols ≥ 1`; `ROWS` and `COLS` are the source's 4.

## Model

| member | source | states |
|---|---|---|
| Level.FlagBits | src/level.rs:31-43 | The six flags and CLOSED have the source's bit values 0x20, 0x10, 0x08, 0x04, 0x02, 0x01 and 0 |
| Level.BitsWithinSix | src/level.rs:34-42 | Every flag set encodes to a `u8` with bits 6 and 7 clear (at most 0x3F) |
| Level.BitsOr | src/level.rs:53 | The model's `Or` is the bitwise `|` of the `u8` encodings |
| Level.BitsContains | src/level.rs:31-43 | `Contains` is the `u8` subset test `a & b == b` |
| Level.BitsInjective | src/level.rs:31-43 | Distinct flag sets have distinct `u8` encodings |
| Level.NewLevelLayout | src/level.rs:25-29 | `LevelLayout::new` is a 64×64 grid of zero bytes |
| Level.OrAtKeepsFlags | src/level.rs:53-95 | A `level_layout[y][x] |= f` keeps every flag the cell had, adds those of `f` and no others, keeps the grid's shape, and changes no other cell |
| Level.OrAt | src/level.rs:53-95 | Defines the `level_layout[y][x] |= f` write used at lines 53, 56, 63, 66 and 91-95. It has no contract of its own; Level.OrAtKeepsFlags states what it does |
| Level.ClosedGrid | src/level.rs:50 | `vec![vec![SectorType::CLOSED; cols]; rows]` is a `rows`×`cols` grid (every cell CLOSED by definition) |
| Level.Connectors | src/level.rs:80-86 | Defines row `y`'s two connector columns: entrance and first down column in row 0, up and down column in a middle row, exit and up column in the last row. It has no contract of its own; Level.ConnectorRange and Level.HorizontalPairs state its properties |
| Level.MakeInclusiveRange | src/level.rs:69-77 | No range iff the two columns are equal; otherwise the range runs from the smaller to the larger, `start < end` |
| Level.Layout | src/level.rs:47-99 | The generated grid is `rows`×`cols` and every sector holds the flags `Expected` prescribes |
| Level.MarkEntranceExit | src/level.rs:50-56 | Starting from an all-CLOSED grid, marking the entrance and the exit gives exactly the entrance at `(0, entrance)` and the exit at `(rows-1, exit)` |
| Level.MarkVerticalLink | src/level.rs:61-67 | Iteration `y` of the first loop adds OPEN_DOWN at `(y, down[y])` and OPEN_UP at `(y+1, down[y])` and nothing else |
| Level.ConnectorRange | src/level.rs:79-89 | The range built from row `y`'s connectors is absent iff they coincide; otherwise it is `[Lo, Hi]` and lies within the grid |
| Level.SkipEmptyRun | src/level.rs:87-89 | A row with equal connectors is left unchanged by the second loop |
| Level.RunDone | src/level.rs:91-96 | Opening a row's run `[Lo, Hi]` completes that row and changes no other |
| Level.OpenRun | src/level.rs:91-96 | The row gains OPEN_RIGHT on `[lo, hi)` and OPEN_LEFT on `(lo, hi]`, on top of its previous flags; other flags are kept |
| Level.MarkVerticalLinks | src/level.rs:48-67 | After the first loop the grid holds exactly the entrance, the exit and all vertical links, and `down_sectors`/`up_sectors` hold the drawn columns |
| Level.JoinRows | src/level.rs:69-97 | The second loop adds every row's horizontal run to the vertically linked grid |
| Level.GenerateLevelLayout | src/level.rs:47-99 | The returned layout equals `Layout(p)` for the drawn entrance, exit and down columns |
| Level.UniqueEntranceExit | src/level.rs:52-56 | The ENTRANCE sectors are exactly `{(0, entrance)}`, the EXIT sectors exactly `{(rows-1, exit)}`, and these are different sectors |
| Level.VerticalPairs | src/level.rs:61-67 | OPEN_DOWN at `(y, x)` iff OPEN_UP at `(y+1, x)`; OPEN_DOWN exactly at the drawn down column of each row but the last; no OPEN_UP in row 0 |
| Level.HorizontalPairs | src/level.rs:79-96 | OPEN_RIGHT at `(y, x)` iff OPEN_LEFT at `(y, x+1)`; column 0 never opens left; OPEN_LEFT exactly on `(Lo, Hi]`, OPEN_RIGHT exactly on `[Lo, Hi)`; no horizontal flag when the connectors coincide; the connectors are the row's entry and exit columns |
| Level.LinkedSymmetric | src/level.rs:91-96 | Two sectors are linked one way iff they are linked the other way |
| Level.RowWalkInRun | src/level.rs:91-96 | Between any two columns of a row's run, the step-by-step row walk is a walk of the layout |
| Level.WalkFromIsWalk | src/level.rs:61-96 | The walk from row `y`'s entry column down through every later row to the exit is a walk of the layout |
| Level.EntranceReachesExit | src/level.rs:47-99 | Some walk through linked sectors starts at the entrance and ends at the exit |
| Level.ReverseWalk | src/level.rs:47-99 | A walk read backwards is a walk |
| Level.ReachableReachesExit | src/level.rs:47-99 | Every sector reachable from the entrance can reach the exit |
| Level.Example4x4 | src/level.rs:47-99 | On a 4×4 grid with entrance column 2, exit column 1 and down columns 1, 3, 0, the layout's `u8` values are the stated 16 bytes |
| Animation.NextFrame | src/animation.rs:35-37 | The formula panics unless `first <= last < usize::MAX`, `index < usize::MAX` and `first <= index + 1`; otherwise the new index lies in `[first, last]` |
| Animation.NextFrameStepOrWrap | src/animation.rs:35-37 | From a frame in range, the next frame is `index + 1` below `last`, and `first` at `last` |
| Animation.SingleFrameFixed | src/animation.rs:35-37 | A one-frame animation (`first == last`) stays on its frame |
| Animation.BelowRangePanics | src/animation.rs:36 | An index below `first - 1` makes `index + 1 - first` underflow |
| Animation.AdvanceCycles | src/animation.rs:33-38 | After `k` timer expiries from a frame in range, the frame is `first + (index - first + k) % (last + 1 - first)` |
| Animation.CycleReturns | src/animation.rs:33-38 | After `last + 1 - first` expiries the animation is back on the frame it started from, with no panic |
| Animation.Animate | src/animation.rs:33-38 | Defines one entity's new index: unchanged unless its timer has just finished, otherwise `NextFrame`. It has no contract of its own; Animation.AnimateSprites is proved against it and Animation.AnimateKeepsInRange states its range property |
| Animation.AdjustSpriteIndices | src/animation.rs:20-26 | Entities whose indices changed get atlas index `first`; all others keep theirs |
| Animation.AnimateSprites | src/animation.rs:28-40 | Succeeds iff no entity whose timer just finished hits a panic; then each such entity moves to its next frame and every other keeps its index |
| Animation.AnimateKeepsInRange | src/animation.rs:32-39 | Entities on frames inside their ranges never panic and stay inside their ranges |
| RustInts.CheckedSubI8 | src/combat.rs:48 | `a - b` on `i8` is defined iff the difference fits in `i8`, and then adding `b` back gives `a` |
| Ui.HeartSprite | src/ui.rs:113-117 | Sprite 39 iff the remaining hp is below 1, 53 iff it is exactly 1, 67 iff it is above 1 |
| Ui.HeartCount | src/ui.rs:65 | The bar has `max_health / 2` hearts for a non-negative maximum (`2r <= max <= 2r + 1`), and none for a negative one |
| Ui.SpawnHealthbar | src/ui.rs:64-83 | `spawn_hud` creates `HeartCount` hearts, all showing the empty sprite 39 |
| Ui.SpawnedBarIsEmpty | src/ui.rs:78-81 | A freshly spawned bar is the bar showing 0 hp |
| Ui.BarNonIncreasing | src/ui.rs:109-119 | Later hearts never show more than earlier ones; after the first empty heart all are empty |
| Ui.AtMostOneHalf | src/ui.rs:109-119 | At most one heart is half full, and one is iff hp is odd and `0 < hp < 2n` |
| Ui.FullHearts | src/ui.rs:109-119 | For `hp >= 0` the number of full hearts is `min(n, hp / 2)` |
| Ui.FullHeartsInCapacity | src/ui.rs:109-119 | For `0 <= hp <= 2n` the number of full hearts is `hp / 2` |
| Ui.AllAtlasedRank | src/ui.rs:110-112 | When every child has an atlas, child `i` is preceded by exactly `i` atlased children |
| Ui.UpdateHud | src/ui.rs:102-120 | Succeeds iff `hp - 2·(atlased children) >= -128`; then each atlased child shows the sprite for hp minus two per earlier atlased child, and children without an atlas are untouched |
| Ui.UpdateHudDrawsBar | src/ui.rs:109-119 | When every child has an atlas, `update_hud` draws exactly the bar `Bar(hp, n)` |
| Combat.Queried | src/combat.rs:34 | Defines the health query's filter: a collider and no invincibility frames (`With<Collider>, Without<Iframes>`). It has no contract of its own; Combat.PassPerTarget states what it excludes |
| Combat.Hits | src/combat.rs:35-43 | Defines the hit condition: the source has a collider, is another entity, one of the two is a sensor, and the physics engine reports them intersecting. It has no contract of its own; Combat.NoHitNoChange and Combat.GrantsExactly are stated in its terms |
| Combat.Hit | src/combat.rs:41-57 | Defines one iteration of the inner loop: no change on a miss, 0 on a `Kill` hit, and on a `Fixed(d)` hit the checked `hp - d` with an iframe grant when `d > 0`. It has no contract of its own; Combat.ApplyMatchesReference, Combat.NoHitNoChange and Combat.GrantsExactly state its effect over the whole loop |
| Combat.Apply | src/combat.rs:40-58 | Defines the inner loop over all sources in order. It has no contract of its own; Combat.ApplySources is proved against it and Combat.ApplyMatchesReference ties it to the unbounded reference |
| Combat.TargetPass | src/combat.rs:40-61 | Defines the outer loop body for one visited target: the inner loop, then a despawn when health ends at or below 0. It has no contract of its own; Combat.DespawnIffDead and Combat.TargetPassNamesTarget state its properties |
| Combat.Pass | src/combat.rs:39-62 | `deal_damage` over all targets in order, skipping those the query does not visit; when it does not panic it gives one health per target |
| Combat.ApplySources | src/combat.rs:40-58 | The inner loop changes only this target's health; it succeeds iff `Apply` does, and then ends with `Apply`'s health and appends exactly its commands |
| Combat.DealDamage | src/combat.rs:33-63 | Succeeds iff no subtraction overflows; then the health array and the command list are exactly those of `Pass` |
| Combat.ApplyNoneExtends | src/combat.rs:48 | An overflow after some prefix of the sources makes the whole inner loop panic |
| Combat.PassNoneExtends | src/combat.rs:39-62 | A panic on some target makes the whole pass panic |
| Combat.ApplyMatchesReference | src/combat.rs:40-58 | The inner loop panics iff the unbounded reference health leaves `i8` after some prefix; otherwise its health is the reference health and its commands are exactly the grants |
| Combat.FixedHitsAccumulate | src/combat.rs:47-48 | Without a `Kill` hit, the health drops by the sum of all hitting fixed amounts (a negative amount raises it) |
| Combat.HpAfterAppend | src/combat.rs:40-58 | Two runs of sources applied in sequence compose |
| Combat.KillResets | src/combat.rs:46 | A hitting `Kill` sets health to 0 whatever came before; only later hits count |
| Combat.GrantsExactly | src/combat.rs:45-56 | Iframes are granted iff some hit is `Fixed(d)` with `d > 0`; every grant names the target with a positive amount; `Kill` grants none |
| Combat.NoHitNoChange | src/combat.rs:41-44 | When no source meets the hit condition (collider, distinct ids, a sensor, intersecting), health and commands are unchanged |
| Combat.DespawnIffDead | src/combat.rs:59-61 | A visited target is despawned iff its health ends at or below 0, hit or not |
| Combat.TargetPassNamesTarget | src/combat.rs:45-61 | Every command for a visited target names that target |
| Combat.PassCommandsPerTarget | src/combat.rs:39-62 | With distinct entities, the commands of the whole pass that name target `k` are exactly its own `TargetPass` commands, in order, when the query visits it, and there are none when it is skipped |
| Combat.DealDamageCommands | src/combat.rs:39-62 | With distinct entities, the command list `Pass` gives, which Combat.DealDamage returns, despawns a target iff the query visits it and its health ends at or below 0, and grants it iframes iff the query visits it and some source hits it by a positive fixed amount |
| Combat.PassPerTarget | src/combat.rs:34-62 | A target without a collider, or with iframes, keeps its health and no command names it; a visited target ends with its own pass's health; every command names a visited target |

## Left out

- Randomness: the three `rand::thread_rng().gen_range(0..cols)` draws (src/level.rs:52, 55, 62) are the fields `entrance`, `exit` and `downs` of `Level.Params`, each below `cols`.
- `convert_sectors_to_level` only iterates over the layout with an empty loop body, and `spawn_entities` is empty, so neither changes anything to model. `LEVEL_SIZE` is a float vector used by neither.
- Engine wiring: plugins, `add_systems`, `.pipe`, states and schedules. The `LevelLayout` resource insertion is not modelled.
- Integer overflow is modelled with debug-build (panicking) semantics. Release-build wrap-around is not modelled.
- `usize` is taken as 64 bits.
- Animation.AnimateSprites, Ui.UpdateHud, Combat.DealDamage, Combat.ApplySources: when `ok` is false the contract says nothing about the arrays. A panic inside a system stops the game, so the partial state is never observed.
- Timers: `AnimationTimer`, `Time` and `Timer::tick` are float durations. Whether a timer has just finished is the input `justFinished`. The `Changed<AnimationIndices>` filter is the input `changed`.
- `PLAYER_MAX_HEALTH` is imported from `player` (src/ui.rs:6) but is not defined in this revision of src/player.rs; Ui.HeartCount and Ui.SpawnHealthbar take it as a parameter. Hearts are values 39 appended to a list; node bundles, images, styles and percentages are not modelled.
- `update_hud` reads the player's health through `single()`, which panics unless exactly one player and one health bar exist. The model takes the hp as an input.
- Each heart child is a distinct entity, so the model gives each child its own slot in `atlas`.
- Combat: `Health(i8)` is represented by its `i8` field. The iframe duration `0.5 * d` seconds is a float and is not modelled; the `InsertIframes` command carries `d`.
- Combat: `update_iframes` (float timer and alpha flicker) is not modelled.
- Combat: `rapier_ctx.intersection_pair(a, b) == Some(true)` is the parameter `intersecting(a, b)`.
- Combat: commands take effect after the system ends and are not applied inside a pass.
- Combat.PassPerTarget, Combat.PassCommandsPerTarget and Combat.DealDamageCommands assume distinct entity ids, as ECS entities are.
- src/slime.rs, src/tile.rs, physics, camera, input, skeleton, door, spike and player code are outside this model.
